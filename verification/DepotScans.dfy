/** What a depot scan finds, said as chains of stored ids. */
module DepotScans {
  import opened Words
  import opened DepotKeys
  import opened DepotStore

  function Gap(a: u32, b: u32): int { b - a }

  /** Ascending ids from `base` on: each one behind the first is stored, at most five above the one before. */
  predicate IsChain(rs: seq<KeyRecord>, base: u32, c: seq<u32>) {
    && c != [] && c[0] == base
    && forall i :: 0 < i < |c| ==> Holds(rs, c[i]) && 0 < Gap(c[i - 1], c[i]) <= 5
  }

  ghost predicate ChainTo(rs: seq<KeyRecord>, base: u32, d: u32) {
    exists c :: IsChain(rs, base, c) && c[|c| - 1] == d
  }

  /** A stored depot of the range, no redistributable, that a chain from the base leads to; the range does not wrap. */
  ghost predicate FoundFrom(rs: seq<KeyRecord>, base: u32, range: nat, d: u32) {
    && base + range < 0x1_0000_0000 && d <= base + range && Holds(rs, d)
    && !(d < 10 || 228980 <= d <= 228999)
    && ChainTo(rs, base, d)
  }

  lemma {:induction false} ChainAscends(rs: seq<KeyRecord>, base: u32, c: seq<u32>, i: nat)
    requires IsChain(rs, base, c) && i < |c|
    ensures base <= c[i]
  {
    if i > 0 {
      ChainAscends(rs, base, c, i - 1);
    }
  }

  /** Along a chain there is a next stored id above every number below its end. */
  lemma {:induction false} ChainHasNext(rs: seq<KeyRecord>, base: u32, c: seq<u32>, e: int)
    requires IsChain(rs, base, c) && base <= e < c[|c| - 1]
    ensures HasNext(rs, e)
    decreases |c|
  {
    var n := |c| - 1;
    if c[n - 1] <= e {
      assert Holds(rs, c[n]);
      var i :| 0 <= i < |rs| && rs[i].id == c[n];
      assert e < rs[i].id <= e + MAX_DEPOT_ID_GAP;
    } else {
      assert IsChain(rs, base, c[..n]);
      ChainHasNext(rs, base, c[..n], e);
    }
  }

  lemma ChainReaches(rs: seq<KeyRecord>, base: u32, d: u32)
    requires ChainTo(rs, base, d)
    ensures base <= d && Reaches(rs, base, d)
  {
    hide HasNext;
    var c :| IsChain(rs, base, c) && c[|c| - 1] == d;
    ChainAscends(rs, base, c, |c| - 1);
    if base < d {
      ChainHasNext(rs, base, c, base);
    }
    forall i | 0 <= i < |rs| && base <= rs[i].id < d
      ensures HasNext(rs, rs[i].id)
    {
      ChainHasNext(rs, base, c, rs[i].id);
    }
  }

  /** From a number on the way a chain goes on to `d`. */
  lemma {:induction false} ReachedByChain(rs: seq<KeyRecord>, base: u32, d: u32, e: u32)
    requires Holds(rs, d) && base <= e <= d && Reaches(rs, base, d) && (e == base || Holds(rs, e))
    ensures ChainTo(rs, e, d)
    decreases d - e
  {
    if e == d {
      assert IsChain(rs, e, [e]);
    } else {
      assert HasNext(rs, e) by {
        if e != base {
          var i :| 0 <= i < |rs| && rs[i].id == e;
        }
      }
      NextOnTheWay(rs, e, d);
      var k :| 0 <= k < |rs| && e < rs[k].id <= d && rs[k].id <= e + 5;
      assert Holds(rs, rs[k].id);
      ReachedByChain(rs, base, d, rs[k].id);
      var c :| IsChain(rs, rs[k].id, c) && c[|c| - 1] == d;
      ChainCons(rs, e, c);
    }
  }

  /** The next stored id is no further than `d`, or `d` itself is close enough. */
  lemma NextOnTheWay(rs: seq<KeyRecord>, e: u32, d: u32)
    requires HasNext(rs, e) && Holds(rs, d) && e < d
    ensures exists k :: 0 <= k < |rs| && e < rs[k].id <= d && rs[k].id <= e + 5
  {
    var i :| 0 <= i < |rs| && e < rs[i].id <= e + MAX_DEPOT_ID_GAP;
    if rs[i].id > d {
      var k :| 0 <= k < |rs| && rs[k].id == d;
    }
  }

  lemma ChainCons(rs: seq<KeyRecord>, e: u32, c: seq<u32>)
    requires c != [] && IsChain(rs, c[0], c) && Holds(rs, c[0]) && e < c[0] <= e + 5
    ensures IsChain(rs, e, [e] + c) && ([e] + c)[|[e] + c| - 1] == c[|c| - 1]
  {
    hide Holds;
    var all := [e] + c;
    forall i | 0 < i < |all|
      ensures Holds(rs, all[i]) && 0 < Gap(all[i - 1], all[i]) <= 5
    {
      assert all[i] == c[i - 1];
    }
  }

  /** A scan finds exactly the depots that a chain leads to. */
  lemma ScanFindsChains(rs: seq<KeyRecord>, base: u32, range: u32, d: u32)
    ensures InScan(rs, base, range, d) <==> FoundFrom(rs, base, range, d)
  {
    hide Reaches, ChainTo, Holds;
    if ChainTo(rs, base, d) {
      ChainReaches(rs, base, d);
    }
    if InScan(rs, base, range, d) {
      ReachedByChain(rs, base, d, base);
    }
  }

  /** A query for an app finds exactly what 25 ids from the app and 10 ids from each DLC are led to; zero is no app. */
  lemma QueryFindsChains(rs: seq<KeyRecord>, appId: u32, dlcIds: seq<u32>, d: u32)
    ensures Wanted(rs, appId, dlcIds, d) <==>
            || (appId > 0 && FoundFrom(rs, appId, 25, d))
            || exists i :: 0 <= i < |dlcIds| && dlcIds[i] > 0 && FoundFrom(rs, dlcIds[i], 10, d)
  {
    hide InScan, FoundFrom;
    ScanFindsChains(rs, appId, 25, d);
    forall i | 0 <= i < |dlcIds|
      ensures InScan(rs, dlcIds[i], 10, d) <==> FoundFrom(rs, dlcIds[i], 10, d)
    {
      ScanFindsChains(rs, dlcIds[i], 10, d);
    }
  }
}
