/** What any run of deltas leaves in a vector. */
module LicenseLaws {
  import opened Words
  import opened LicenseDelta

  /** How often `x` occurs. */
  function Count(s: seq<u32>, x: u32): nat {
    multiset(s)[x]
  }

  // ---- one removal --------------------------------------------------------------------------

  lemma RemoveLast(s: seq<u32>, i: nat)
    requires i < |s|
    ensures multiset(s[i := s[|s| - 1]][..|s| - 1]) == multiset(s) - multiset{s[i]}
  {
    var n := |s| - 1;
    var t := s[i := s[n]];
    assert t == t[..n] + [s[n]];
    assert multiset(t) == multiset(t[..n]) + multiset{s[n]};
    Overwritten(s, i, s[n]);
    Cancel(multiset(t[..n]), multiset(s) - multiset{s[i]}, s[n]);
  }

  lemma Cancel(a: multiset<u32>, b: multiset<u32>, x: u32)
    requires a + multiset{x} == b + multiset{x}
    ensures a == b
  {
    forall y: u32
      ensures a[y] == b[y]
    {
      assert (a + multiset{x})[y] == (b + multiset{x})[y];
    }
  }

  lemma Overwritten(s: seq<u32>, i: nat, x: u32)
    requires i < |s|
    ensures multiset(s[i := x]) == multiset(s) - multiset{s[i]} + multiset{x}
  {
  }

  /** Removing takes away one occurrence of the value and nothing else. */
  lemma FastRemoveCounts(s: seq<u32>, v: u32)
    ensures multiset(FastRemove(s, v)) == multiset(s) - multiset{v}
  {
    if v in s {
      RemoveLast(s, First(s, v));
    } else {
      assert v !in multiset(s);
    }
  }

  // ---- one delta --------------------------------------------------------------------------------

  /** An id is unique when it occurs at most once. */
  predicate Unique(s: seq<u32>) {
    forall x: u32 :: Count(s, x) <= 1
  }

  lemma UniqueIffNoDuplicates(s: seq<u32>)
    ensures Unique(s) <==> NoDuplicates(s)
  {
    if !NoDuplicates(s) {
      var i, j :| 0 <= i < j < |s| && s[i] == s[j];
      assert s == s[..j] + [s[j]] + s[j + 1..];
      assert s[i] in s[..j];
      assert Count(s, s[i]) >= 2;
    }
    if NoDuplicates(s) {
      forall x: u32
        ensures Count(s, x) <= 1
      {
        CountOfDistinct(s, x);
      }
    }
  }

  lemma {:induction false} CountOfDistinct(s: seq<u32>, x: u32)
    requires NoDuplicates(s)
    ensures Count(s, x) <= 1
  {
    if s != [] {
      var n := |s| - 1;
      CountOfDistinct(s[..n], x);
      assert s == s[..n] + [s[n]];
      if x == s[n] {
        assert x !in s[..n];
        assert x !in multiset(s[..n]);
      }
    }
  }

  /** Removals lower the counts of tracked ids that are not desired, and leave every other count alone. */
  lemma {:induction false} RemoveDroppedCounts(s: seq<u32>, tracked: seq<u32>, desired: set<u32>, x: u32)
    ensures Count(RemoveDropped(s, tracked, desired), x) <= Count(s, x)
    ensures x !in tracked || x in desired ==> Count(RemoveDropped(s, tracked, desired), x) == Count(s, x)
    ensures x in tracked && x !in desired && Count(s, x) <= 1 ==> Count(RemoveDropped(s, tracked, desired), x) == 0
  {
    hide FastRemove;
    if tracked != [] {
      var front, id := tracked[..|tracked| - 1], tracked[|tracked| - 1];
      assert tracked == front + [id];
      RemoveDroppedCounts(s, front, desired, x);
      FastRemoveCounts(RemoveDropped(s, front, desired), id);
    }
  }

  lemma {:induction false} AdditionsCounts(present: set<u32>, desired: seq<u32>, x: u32)
    ensures Count(Additions(present, desired), x) == if x in present then 0 else Count(desired, x)
  {
    if desired != [] {
      var front, id := desired[..|desired| - 1], desired[|desired| - 1];
      assert desired == front + [id];
      AdditionsCounts(present, front, x);
    }
  }

  /** The count of every id after a delta whose vector grew. */
  lemma DeltaCounts(s: seq<u32>, tracked: seq<u32>, desired: seq<u32>, x: u32)
    ensures var kept := RemoveDropped(s, tracked, SetOf(desired));
            Count(Delta(s, tracked, desired, true), x) ==
            if Count(kept, x) > 0 then Count(kept, x) else Count(desired, x)
  {
    hide RemoveDropped, Additions;
    var kept := RemoveDropped(s, tracked, SetOf(desired));
    AdditionsCounts(SetOf(kept), desired, x);
    assert x in SetOf(kept) <==> x in multiset(kept);
  }

  /** No delta ever introduces a duplicate, whether or not the vector could grow. */
  lemma DeltaStaysUnique(s: seq<u32>, tracked: seq<u32>, desired: seq<u32>, grown: bool)
    requires Unique(s) && Unique(desired)
    ensures Unique(Delta(s, tracked, desired, grown))
  {
    hide RemoveDropped, Additions;
    forall x: u32
      ensures Count(Delta(s, tracked, desired, grown), x) <= 1
    {
      RemoveDroppedCounts(s, tracked, SetOf(desired), x);
      DeltaCounts(s, tracked, desired, x);
    }
  }

  /** An id that is neither tracked nor desired occurs exactly as often as before. */
  lemma DeltaLeavesOthers(s: seq<u32>, tracked: seq<u32>, desired: seq<u32>, grown: bool, x: u32)
    requires x !in tracked && x !in desired
    ensures Count(Delta(s, tracked, desired, grown), x) == Count(s, x)
  {
    hide RemoveDropped, Additions;
    RemoveDroppedCounts(s, tracked, SetOf(desired), x);
    DeltaCounts(s, tracked, desired, x);
    assert x !in multiset(desired);
  }

  /** The ids after a delta whose vector grew: the dropped ones gone, the desired ones there. */
  lemma DeltaSet(s: seq<u32>, tracked: seq<u32>, desired: seq<u32>)
    requires Unique(s)
    ensures SetOf(Delta(s, tracked, desired, true)) == SetOf(s) - (SetOf(tracked) - SetOf(desired)) + SetOf(desired)
  {
    hide RemoveDropped, Additions, Delta, Count;
    forall x: u32
      ensures x in Delta(s, tracked, desired, true) <==>
              (x in s && !(x in tracked && x !in desired)) || x in desired
    {
      DeltaCounts(s, tracked, desired, x);
      RemoveDroppedCounts(s, tracked, SetOf(desired), x);
      InIffCounted(Delta(s, tracked, desired, true), x);
      InIffCounted(s, x);
      InIffCounted(desired, x);
    }
  }

  lemma InIffCounted(s: seq<u32>, x: u32)
    ensures x in s <==> Count(s, x) > 0
  {
    assert x in s <==> x in multiset(s);
  }

  // ---- runs of deltas -------------------------------------------------------------------------------

  /** One delta of a run: what is desired, and whether the vector could grow. */
  datatype Request = Request(desired: seq<u32>, grown: bool)

  /** The vector and the tracked list. */
  datatype Tracked = Tracked(ids: seq<u32>, tracked: seq<u32>)

  function Apply(t: Tracked, r: Request): Tracked {
    Tracked(Delta(t.ids, t.tracked, r.desired, r.grown), if r.grown then r.desired else t.tracked)
  }

  /** The state after a run that starts with nothing tracked. */
  function Run(start: seq<u32>, rs: seq<Request>): Tracked {
    if rs == [] then Tracked(start, []) else Apply(Run(start, rs[..|rs| - 1]), rs[|rs| - 1])
  }

  /** Every id that some request desired. */
  function EverDesired(rs: seq<Request>): set<u32> {
    if rs == [] then {} else EverDesired(rs[..|rs| - 1]) + SetOf(rs[|rs| - 1].desired)
  }

  predicate UniqueRequests(rs: seq<Request>) {
    forall i :: 0 <= i < |rs| ==> Unique(rs[i].desired)
  }

  predicate AllGrown(rs: seq<Request>) {
    forall i :: 0 <= i < |rs| ==> rs[i].grown
  }

  function LastDesired(rs: seq<Request>): set<u32> {
    if rs == [] then {} else SetOf(rs[|rs| - 1].desired)
  }

  lemma {:induction false} TrackedWereDesired(start: seq<u32>, rs: seq<Request>)
    ensures SetOf(Run(start, rs).tracked) <= EverDesired(rs)
    ensures AllGrown(rs) ==> SetOf(Run(start, rs).tracked) == LastDesired(rs)
  {
    hide Delta;
    if rs != [] {
      TrackedWereDesired(start, rs[..|rs| - 1]);
    }
  }

  /** Over every run no duplicate ever appears. */
  lemma {:induction false} RunStaysUnique(start: seq<u32>, rs: seq<Request>)
    requires Unique(start) && UniqueRequests(rs)
    ensures Unique(Run(start, rs).ids)
  {
    hide Unique, Delta;
    if rs != [] {
      var front := rs[..|rs| - 1];
      assert forall i :: 0 <= i < |front| ==> front[i] == rs[i];
      RunStaysUnique(start, front);
      var t := Run(start, front);
      DeltaStaysUnique(t.ids, t.tracked, rs[|rs| - 1].desired, rs[|rs| - 1].grown);
    }
  }

  /** Over every run an id that was never desired occurs exactly as often as at the start. */
  lemma {:induction false} RunConservesOthers(start: seq<u32>, rs: seq<Request>, x: u32)
    requires x !in EverDesired(rs)
    ensures Count(Run(start, rs).ids, x) == Count(start, x)
  {
    hide Count, Delta;
    if rs != [] {
      var front := rs[..|rs| - 1];
      RunConservesOthers(start, front, x);
      TrackedWereDesired(start, front);
      var t := Run(start, front);
      assert x !in SetOf(t.tracked) && x !in SetOf(rs[|rs| - 1].desired);
      DeltaLeavesOthers(t.ids, t.tracked, rs[|rs| - 1].desired, rs[|rs| - 1].grown, x);
    }
  }

  /** The closed form: whatever was ever desired is gone, except for what is desired last. */
  lemma {:induction false} RunClosedForm(start: seq<u32>, rs: seq<Request>)
    requires Unique(start) && UniqueRequests(rs) && AllGrown(rs)
    ensures SetOf(Run(start, rs).ids) == SetOf(start) - EverDesired(rs) + LastDesired(rs)
  {
    hide Unique, Delta, SetOf;
    if rs == [] {
      assert SetOf(start) - {} + {} == SetOf(start);
    } else {
      var front, last := rs[..|rs| - 1], rs[|rs| - 1];
      assert forall i :: 0 <= i < |front| ==> front[i] == rs[i];
      RunClosedForm(start, front);
      RunStaysUnique(start, front);
      TrackedWereDesired(start, front);
      LastWasDesired(front);
      var t := Run(start, front);
      DeltaSet(t.ids, t.tracked, last.desired);
    }
  }

  lemma LastWasDesired(rs: seq<Request>)
    ensures LastDesired(rs) <= EverDesired(rs)
  {
  }

  /** Repeating the last delta leaves the vector exactly as it is, element by element. */
  lemma RepeatChangesNothing(start: seq<u32>, rs: seq<Request>)
    requires Unique(start) && UniqueRequests(rs) && AllGrown(rs) && rs != []
    ensures Apply(Run(start, rs), rs[|rs| - 1]) == Run(start, rs)
  {
    var t := Run(start, rs);
    var desired := rs[|rs| - 1].desired;
    RunClosedForm(start, rs);
    assert t.tracked == desired && SetOf(desired) <= SetOf(t.ids);
    NothingDropped(t.ids, desired, SetOf(desired));
    NothingAdded(SetOf(t.ids), desired);
  }

  lemma {:induction false} NothingDropped(s: seq<u32>, tracked: seq<u32>, desired: set<u32>)
    requires SetOf(tracked) <= desired
    ensures RemoveDropped(s, tracked, desired) == s
  {
    if tracked != [] {
      assert forall x :: x in tracked[..|tracked| - 1] ==> x in SetOf(tracked);
      assert tracked[|tracked| - 1] in SetOf(tracked);
      NothingDropped(s, tracked[..|tracked| - 1], desired);
    }
  }

  lemma {:induction false} NothingAdded(present: set<u32>, desired: seq<u32>)
    requires SetOf(desired) <= present
    ensures Additions(present, desired) == []
  {
    if desired != [] {
      assert forall x :: x in desired[..|desired| - 1] ==> x in SetOf(desired);
      assert desired[|desired| - 1] in SetOf(desired);
      NothingAdded(present, desired[..|desired| - 1]);
    }
  }

  // ---- whose ids are removed ------------------------------------------------------------------------

  /**
    * The tracked list is the whole desired list, not just the ids appended for it. So an id the client
    * itself had put in the vector survives a run exactly when no request desired it, or the last one does.
    */
  lemma NativeIdSurvivesIff(start: seq<u32>, rs: seq<Request>, x: u32)
    requires Unique(start) && UniqueRequests(rs) && AllGrown(rs) && x in start
    ensures x in Run(start, rs).ids <==> x !in EverDesired(rs) || x in LastDesired(rs)
  {
    hide Run, EverDesired, LastDesired;
    RunClosedForm(start, rs);
    assert x in Run(start, rs).ids <==> x in SetOf(Run(start, rs).ids);
    assert x in SetOf(start);
  }

  /** An id that no delta appended, removed all the same. */
  lemma NativeIdRemoved(x: u32)
    ensures Run([x], [Request([x], true)]).ids == [x]
    ensures Run([x], [Request([x], true), Request([], true)]).ids == []
  {
    var one, two := [Request([x], true)], [Request([x], true), Request([], true)];
    assert one[..0] == [] && two[..1] == one;
    assert Run([x], []) == Tracked([x], []);
    assert RemoveDropped([x], [], SetOf([x])) == [x];
    assert [x][..0] == [];
    assert Additions(SetOf([x]), [x]) == [];
    assert Run([x], one) == Tracked([x], [x]);
    assert RemoveDropped([x], [x], SetOf([])) == FastRemove([x], x) == [];
    assert Additions(SetOf([]), []) == [];
  }
}
