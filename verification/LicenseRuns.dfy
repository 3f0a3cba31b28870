/** Runs of deltas in which the vectors sometimes cannot grow. */
module LicenseRuns {
  import opened Words
  import opened LicenseDelta
  import opened LicenseLaws

  /** A removal overwrites the first occurrence with the last element and leaves every other place alone. */
  lemma RemovalMovesLast(s: seq<u32>, v: u32, i: nat)
    requires i < |s| && s[i] == v && v !in s[..i]
    ensures |FastRemove(s, v)| == |s| - 1
    ensures forall k :: 0 <= k < |s| - 1 ==> FastRemove(s, v)[k] == if k == i then s[|s| - 1] else s[k]
  {
    FirstIs(s, v, i);
  }

  /** What is added comes in the order in which it is desired. */
  lemma {:induction false} AddedInOrder(present: set<u32>, a: seq<u32>, b: seq<u32>)
    ensures Additions(present, a + b) == Additions(present, a) + Additions(present, b)
    decreases |b|
  {
    if b == [] {
      assert a + b == a;
      assert Additions(present, a) + [] == Additions(present, a);
    } else {
      var front, all := b[..|b| - 1], a + b;
      assert all[..|all| - 1] == a + front;
      AddedInOrder(present, a, front);
    }
  }

  /** A delta whose vector could not grow removes what was dropped and adds nothing. */
  lemma FailedDeltaSet(s: seq<u32>, tracked: seq<u32>, desired: seq<u32>)
    requires Unique(s)
    ensures SetOf(Delta(s, tracked, desired, false)) == SetOf(s) - (SetOf(tracked) - SetOf(desired))
  {
    hide RemoveDropped, Count;
    forall x: u32
      ensures x in Delta(s, tracked, desired, false) <==> x in s && !(x in tracked && x !in desired)
    {
      RemoveDroppedCounts(s, tracked, SetOf(desired), x);
      InIffCounted(Delta(s, tracked, desired, false), x);
      InIffCounted(s, x);
    }
  }

  function Grown(): Request -> bool {
    (r: Request) => r.grown
  }

  function GrownFor(x: u32): Request -> bool {
    (r: Request) => r.grown && x in r.desired
  }

  /** The tracked list is what the last request desired whose vector could grow. */
  lemma {:induction false} TrackedIsLastGrown(start: seq<u32>, rs: seq<Request>)
    ensures Run(start, rs).tracked == match Last(rs, Grown()) case Some(r) => r.desired case None => []
  {
    hide Delta;
    if rs != [] {
      TrackedIsLastGrown(start, rs[..|rs| - 1]);
    }
  }

  /** From request `k` on every request desires the id. */
  predicate DesiredFrom(rs: seq<Request>, x: u32, k: nat) {
    forall j :: k <= j < |rs| ==> x in rs[j].desired
  }

  /** The id was appended and every request since has desired it, or it was there and never appended. */
  ghost predicate Belongs(start: seq<u32>, rs: seq<Request>, x: u32) {
    if exists k :: IsLastAt(rs, GrownFor(x), k)
    then exists k: nat :: IsLastAt(rs, GrownFor(x), k) && DesiredFrom(rs, x, k)
    else x in start
  }

  /**
    * Whichever vectors could grow: after any run the vector holds exactly the ids that, since the last delta that
    * grew for them, every delta desired, and the ids it held at the start that no delta that grew desired.
    */
  lemma {:induction false} RunMembership(start: seq<u32>, rs: seq<Request>, x: u32)
    requires Unique(start) && UniqueRequests(rs)
    ensures x in Run(start, rs).ids <==> Belongs(start, rs, x)
  {
    if rs != [] {
      var front, r := rs[..|rs| - 1], rs[|rs| - 1];
      assert forall i :: 0 <= i < |front| ==> front[i] == rs[i];
      assert rs == front + [r];
      RunMembership(start, front, x);
      RunStaysUnique(start, front);
      TrackedIsLastGrown(start, front);
      hide Belongs, Unique, Delta, Last, DesiredFrom, UniqueRequests;
      var t := Run(start, front);
      MemberStep(t, r, x);
      BelongsStep(start, front, r, x);
      TrackedIffLast(front, x);
    }
  }

  lemma MemberStep(t: Tracked, r: Request, x: u32)
    requires Unique(t.ids)
    ensures x in Apply(t, r).ids <==>
            (r.grown && x in r.desired) || (x in t.ids && !(x in t.tracked && x !in r.desired))
  {
    hide Unique, Delta;
    if r.grown {
      DeltaSet(t.ids, t.tracked, r.desired);
    } else {
      FailedDeltaSet(t.ids, t.tracked, r.desired);
    }
    assert x in Apply(t, r).ids <==> x in SetOf(Apply(t, r).ids);
  }

  /** The id is among what the last request desired whose vector could grow. */
  predicate IsTracked(rs: seq<Request>, x: u32) {
    match Last(rs, Grown())
    case Some(r) => x in r.desired
    case None => false
  }

  lemma TrackedIffLast(rs: seq<Request>, x: u32)
    ensures x in (match Last(rs, Grown()) case Some(r) => r.desired case None => []) <==> IsTracked(rs, x)
  {
  }

  lemma BelongsStep(start: seq<u32>, rs: seq<Request>, r: Request, x: u32)
    ensures Belongs(start, rs + [r], x) <==>
            (r.grown && x in r.desired) || (Belongs(start, rs, x) && !(IsTracked(rs, x) && x !in r.desired))
  {
    var all := rs + [r];
    hide IsTracked, DesiredFrom, Belongs;
    if r.grown && x in r.desired {
      assert IsLastAt(all, GrownFor(x), |rs|);
      AppendedBelongs(start, all, x, |rs|);
      DesiredSnoc(rs, r, x, |rs|);
    } else if k: nat :| IsLastAt(rs, GrownFor(x), k) {
      LastStays(rs, r, x, k);
      AppendedBelongs(start, rs, x, k);
      AppendedBelongs(start, all, x, k);
      DesiredSnoc(rs, r, x, k);
      if DesiredFrom(rs, x, k) {
        DesiredIsTracked(rs, x, k);
      }
    } else {
      NeverGrown(start, rs, x);
      assert forall i :: 0 <= i < |rs| ==> all[i] == rs[i];
      forall k | IsLastAt(all, GrownFor(x), k)
        ensures IsLastAt(rs, GrownFor(x), k)
      {
      }
      NeverGrown(start, all, x);
    }
  }

  lemma LastStays(rs: seq<Request>, r: Request, x: u32, k: nat)
    requires IsLastAt(rs, GrownFor(x), k) && !(r.grown && x in r.desired)
    ensures IsLastAt(rs + [r], GrownFor(x), k)
  {
  }

  lemma AppendedBelongs(start: seq<u32>, rs: seq<Request>, x: u32, k: nat)
    requires IsLastAt(rs, GrownFor(x), k)
    ensures Belongs(start, rs, x) <==> DesiredFrom(rs, x, k)
  {
    hide DesiredFrom;
    assert forall j: nat :: IsLastAt(rs, GrownFor(x), j) ==> j == k;
  }

  lemma NeverGrown(start: seq<u32>, rs: seq<Request>, x: u32)
    requires forall k :: !IsLastAt(rs, GrownFor(x), k)
    ensures Belongs(start, rs, x) <==> x in start
    ensures !IsTracked(rs, x)
  {
    LastIff(rs, GrownFor(x));
    LastIff(rs, Grown());
    forall g | IsLastAt(rs, Grown(), g)
      ensures x !in rs[g].desired
    {
      assert !GrownFor(x)(rs[g]);
    }
  }

  lemma DesiredSnoc(rs: seq<Request>, r: Request, x: u32, k: nat)
    requires k <= |rs|
    ensures DesiredFrom(rs + [r], x, k) <==> DesiredFrom(rs, x, k) && x in r.desired
    ensures k == |rs| ==> DesiredFrom(rs, x, k)
  {
    var all := rs + [r];
    assert all[|rs|] == r;
    assert forall j :: 0 <= j < |rs| ==> all[j] == rs[j];
  }

  /** Desired by every request since it was appended, the id is tracked. */
  lemma DesiredIsTracked(rs: seq<Request>, x: u32, k: nat)
    requires IsLastAt(rs, GrownFor(x), k) && DesiredFrom(rs, x, k)
    ensures IsTracked(rs, x)
  {
    LastIff(rs, Grown());
    assert Grown()(rs[k]);
    var g :| IsLastAt(rs, Grown(), g);
    assert g >= k && x in rs[g].desired;
  }
}
