/** The depot key index: a binary file parsed into sorted records, searched and scanned. */
module DepotKeys {
  import opened Words
  import opened TextCodecs

  const OMKY_MAGIC: u32 := 0x594B4D4F
  const CURRENT_VERSION: u32 := 1
  const MAX_RECORD_COUNT: nat := 5_000_000
  const HEADER: nat := 12
  const RECORD: nat := 36
  const KEY: nat := 32
  const MAX_DEPOT_ID_GAP: nat := 5
  const APP_SCAN_RANGE: u32 := 25
  const DLC_SCAN_RANGE: u32 := 10

  datatype KeyRecord = KeyRecord(id: u32, key: seq<byte>)

  // ---- the binary file --------------------------------------------------------------------

  function CountOf(data: seq<byte>): u32
    requires |data| >= HEADER
  {
    Load32(data[8..12])
  }

  /** Buffers the parser takes: the right header, a plausible count, and room for that many records. */
  predicate Accepts(data: seq<byte>) {
    && |data| >= HEADER
    && Load32(data[..4]) == OMKY_MAGIC && Load32(data[4..8]) == CURRENT_VERSION
    && CountOf(data) <= MAX_RECORD_COUNT
    && |data| >= HEADER + CountOf(data) * RECORD
  }

  function RecordAt(data: seq<byte>, at: nat): KeyRecord
    requires at + RECORD <= |data|
  {
    KeyRecord(Load32(data[at..at + 4]), data[at + 4..at + RECORD])
  }

  /** The first `n` records of the body. */
  function RawRecords(data: seq<byte>, n: nat): (rs: seq<KeyRecord>)
    requires |data| >= HEADER + n * RECORD
    ensures |rs| == n
  {
    if n == 0 then [] else RawRecords(data, n - 1) + [RecordAt(data, HEADER + (n - 1) * RECORD)]
  }

  // ---- order ---------------------------------------------------------------------------------

  predicate Sorted(rs: seq<KeyRecord>) {
    forall i, j :: 0 <= i < j < |rs| ==> rs[i].id <= rs[j].id
  }

  predicate StrictlySorted(rs: seq<KeyRecord>) {
    forall i, j :: 0 <= i < j < |rs| ==> rs[i].id < rs[j].id
  }

  /** Where `std::lower_bound` points: everything before is smaller, nothing from there on is. */
  predicate IsLowerBound(rs: seq<KeyRecord>, id: u32, i: nat) {
    && i <= |rs|
    && (forall j :: 0 <= j < i ==> rs[j].id < id)
    && (forall j :: i <= j < |rs| ==> rs[j].id >= id)
  }

  predicate Holds(rs: seq<KeyRecord>, id: u32) {
    exists i :: 0 <= i < |rs| && rs[i].id == id
  }

  /** The record an id has, by linear search. */
  function Find(rs: seq<KeyRecord>, id: u32): Option<seq<byte>> {
    if rs == [] then None
    else if rs[0].id == id then Some(rs[0].key)
    else Find(rs[1..], id)
  }

  /** The text a lookup answers with: the key in hex, or nothing. */
  function KeyText(rs: seq<KeyRecord>, id: u32): seq<byte> {
    match Find(rs, id)
    case Some(key) => ToHex(key)
    case None => []
  }

  /** A search finds something exactly when the id is stored. */
  lemma {:induction false} FindHolds(rs: seq<KeyRecord>, id: u32)
    ensures Find(rs, id).Some? <==> Holds(rs, id)
  {
    if rs != [] && rs[0].id != id {
      var rest := rs[1..];
      FindHolds(rest, id);
      assert forall j :: 0 < j < |rs| ==> rs[j] == rest[j - 1];
      assert forall j :: 0 <= j < |rest| ==> rest[j] == rs[j + 1];
    }
  }

  lemma {:induction false} FindSkips(rs: seq<KeyRecord>, id: u32, i: nat)
    requires i <= |rs| && forall j :: 0 <= j < i ==> rs[j].id != id
    ensures Find(rs, id) == Find(rs[i..], id)
  {
    if i > 0 {
      FindSkips(rs[1..], id, i - 1);
      assert rs[1..][i - 1..] == rs[i..];
    }
  }

  /** On an ordered index the lower bound decides the search. */
  lemma FindAtLowerBound(rs: seq<KeyRecord>, id: u32, i: nat)
    requires IsLowerBound(rs, id, i)
    ensures Sorted(rs) ==> Find(rs, id) == (if i < |rs| && rs[i].id == id then Some(rs[i].key) else None)
    ensures Find(rs, id).Some? <==> Holds(rs, id)
  {
    FindHolds(rs, id);
    FindSkips(rs, id, i);
  }

  /** A binary search for the first record not below `id`. */
  method LowerBound(rs: seq<KeyRecord>, id: u32) returns (i: nat)
    requires Sorted(rs)
    ensures IsLowerBound(rs, id, i)
  {
    var lo, hi := 0, |rs|;
    while lo < hi
      invariant lo <= hi <= |rs|
      invariant forall j :: 0 <= j < lo ==> rs[j].id < id
      invariant forall j :: hi <= j < |rs| ==> rs[j].id >= id
    {
      var mid := (lo + hi) / 2;
      if rs[mid].id < id {
        lo := mid + 1;
      } else {
        hi := mid;
      }
    }
    return lo;
  }

  predicate DistinctIds(rs: seq<KeyRecord>) {
    forall i, j :: 0 <= i < j < |rs| ==> rs[i].id != rs[j].id
  }

  /** The records in ascending order of id; records of equal id in any order, as `std::sort` leaves them. */
  method SortRecords(rs: seq<KeyRecord>) returns (out: seq<KeyRecord>)
    ensures Sorted(out) && multiset(out) == multiset(rs)
    ensures DistinctIds(rs) ==> StrictlySorted(out)
  {
    hide Sorted, StrictlySorted, Inserted, DistinctIds;
    out := [];
    EmptyIsSorted();
    var i := 0;
    while i < |rs|
      invariant i <= |rs| && Sorted(out) && multiset(out) == multiset(rs[..i])
      invariant DistinctIds(rs) ==> StrictlySorted(out)
    {
      var k := LowerBound(out, rs[i].id);
      InsertedSorted(out, rs[i], k);
      if DistinctIds(rs) {
        NewIdIsAbsent(rs, i, out);
        InsertedStrictlySorted(out, rs[i], k);
      }
      InsertedContents(out, rs[i], k);
      assert rs[..i + 1] == rs[..i] + [rs[i]];
      out := Inserted(out, rs[i], k);
      i := i + 1;
    }
    assert rs[..i] == rs;
  }

  lemma EmptyIsSorted()
    ensures Sorted([]) && StrictlySorted([])
  {
  }

  lemma NewIdIsAbsent(rs: seq<KeyRecord>, i: nat, out: seq<KeyRecord>)
    requires DistinctIds(rs) && i < |rs| && multiset(out) == multiset(rs[..i])
    ensures forall k :: 0 <= k < |out| ==> out[k].id != rs[i].id
  {
    forall k | 0 <= k < |out|
      ensures out[k].id != rs[i].id
    {
      assert out[k] in multiset(out);
      assert out[k] in rs[..i];
    }
  }

  /** `rs` with `r` put in at position `k`. */
  function Inserted(rs: seq<KeyRecord>, r: KeyRecord, k: nat): seq<KeyRecord>
    requires k <= |rs|
  {
    rs[..k] + [r] + rs[k..]
  }

  lemma InsertedSorted(rs: seq<KeyRecord>, r: KeyRecord, k: nat)
    requires Sorted(rs) && IsLowerBound(rs, r.id, k)
    ensures Sorted(Inserted(rs, r, k))
  {
    var out := Inserted(rs, r, k);
    assert forall i :: 0 <= i < |out| ==> out[i] == if i < k then rs[i] else if i == k then r else rs[i - 1];
  }

  lemma InsertedStrictlySorted(rs: seq<KeyRecord>, r: KeyRecord, k: nat)
    requires StrictlySorted(rs) && IsLowerBound(rs, r.id, k) && (k == |rs| || rs[k].id != r.id)
    ensures StrictlySorted(Inserted(rs, r, k))
  {
    var out := Inserted(rs, r, k);
    assert forall i :: 0 <= i < |out| ==> out[i] == if i < k then rs[i] else if i == k then r else rs[i - 1];
  }

  lemma InsertedContents(rs: seq<KeyRecord>, r: KeyRecord, k: nat)
    requires k <= |rs|
    ensures multiset(Inserted(rs, r, k)) == multiset(rs) + multiset{r}
  {
    assert rs == rs[..k] + rs[k..];
  }

  // ---- scanning ----------------------------------------------------------------------------------

  /** Ids that belong to no app of their own. */
  predicate IsCommonRedistOrInvalid(id: u32) {
    id < 10 || 228980 <= id <= 228999
  }

  /** Some stored id lies above `e`, at most one gap away. */
  predicate HasNext(rs: seq<KeyRecord>, e: int) {
    exists i :: 0 <= i < |rs| && e < rs[i].id <= e + MAX_DEPOT_ID_GAP
  }

  /** From `base` up to `d` no step between stored ids is larger than the gap. */
  predicate Reaches(rs: seq<KeyRecord>, base: u32, d: u32) {
    && (base < d ==> HasNext(rs, base))
    && forall i :: 0 <= i < |rs| && base <= rs[i].id < d ==> HasNext(rs, rs[i].id)
  }

  /** A stored depot of the range that is no redistributable and that no gap cuts off. */
  predicate InReach(rs: seq<KeyRecord>, base: u32, range: u32, d: u32) {
    Holds(rs, d) && base <= d <= base + range && !IsCommonRedistOrInvalid(d) && Reaches(rs, base, d)
  }

  /** The depots a scan finds: those in reach, provided that the end of the range is still an id. */
  predicate InScan(rs: seq<KeyRecord>, base: u32, range: u32, d: u32) {
    InReach(rs, base, range, d) && base + range < TWO_32
  }

  /** What the scan knows at record `i`: `prev` is reachable and is the base or the record before. */
  predicate ScanAt(rs: seq<KeyRecord>, base: u32, start: nat, i: nat, prev: u32) {
    && start <= i <= |rs|
    && base <= prev && Reaches(rs, base, prev)
    && (if i == start then prev == base else prev == rs[i - 1].id)
  }

  lemma ScanOn(rs: seq<KeyRecord>, base: u32, start: nat, i: nat, prev: u32)
    requires Sorted(rs) && IsLowerBound(rs, base, start) && ScanAt(rs, base, start, i, prev)
    requires i < |rs| && rs[i].id - prev <= MAX_DEPOT_ID_GAP
    ensures ScanAt(rs, base, start, i + 1, rs[i].id)
  {
    var d := rs[i].id;
    assert prev <= d;
    if prev < d {
      assert HasNext(rs, prev);
      forall j | 0 <= j < |rs| && base <= rs[j].id < d
        ensures HasNext(rs, rs[j].id)
      {
        if rs[j].id >= prev {
          assert j < i;
          assert j >= start;
          assert rs[j].id == prev;
        }
      }
    }
  }

  /** Past a gap nothing is reachable any more. */
  lemma ScanStops(rs: seq<KeyRecord>, base: u32, start: nat, i: nat, prev: u32, k: nat)
    requires Sorted(rs) && IsLowerBound(rs, base, start) && ScanAt(rs, base, start, i, prev)
    requires i < |rs| && rs[i].id - prev > MAX_DEPOT_ID_GAP && i <= k < |rs|
    ensures !Reaches(rs, base, rs[k].id)
  {
    forall j | 0 <= j < |rs|
      ensures !(prev < rs[j].id <= prev + MAX_DEPOT_ID_GAP)
    {
      if j < start {
      } else if j < i {
        assert rs[j].id <= prev;
      } else {
        assert rs[j].id >= rs[i].id;
      }
    }
    assert !HasNext(rs, prev);
  }

  /** The text is the key of the last of the first `n` records with id `d`. */
  predicate LastIn(rs: seq<KeyRecord>, n: nat, d: u32, text: seq<byte>) {
    exists j :: 0 <= j < n && j < |rs| && rs[j].id == d && text == ToHex(rs[j].key) && NoneFrom(rs, j + 1, n, d)
  }

  predicate NoneFrom(rs: seq<KeyRecord>, from: nat, to: nat, d: u32) {
    forall k :: from <= k < to && k < |rs| ==> rs[k].id != d
  }

  /** Everything collected is what the index says; where an id is stored twice the later record won. */
  predicate Collected(result: map<u32, seq<byte>>, rs: seq<KeyRecord>) {
    forall d :: d in result ==> LastIn(rs, |rs|, d, result[d])
  }

  predicate Collecting(result: map<u32, seq<byte>>, rs: seq<KeyRecord>, base: u32, start: nat, i: nat) {
    forall d :: d in result ==> LastIn(rs, if ScannedUpTo(rs, base, start, i, d) then i else |rs|, d, result[d])
  }

  method ScanRange(rs: seq<KeyRecord>, base: u32, range: u32, before: map<u32, seq<byte>>)
    returns (result: map<u32, seq<byte>>)
    requires Sorted(rs) && Collected(before, rs)
    ensures Collected(result, rs)
    ensures forall d: u32 :: d in result <==> d in before || InScan(rs, base, range, d)
  {
    hide Reaches, LastIn, Collecting, Collected, ScannedUpTo, InScan;
    result := before;
    var it := LowerBound(rs, base);
    ghost var start := it;
    var prev := base;
    var limit := (base + range) % TWO_32;
    ScanBegin(rs, base, start, before);
    while it < |rs| && rs[it].id <= limit
      invariant ScanAt(rs, base, start, it, prev)
      invariant Collecting(result, rs, base, start, it)
      invariant it > start ==> base + range < TWO_32 && rs[it - 1].id <= base + range
      invariant forall d: u32 :: d in result <==> d in before || ScannedUpTo(rs, base, start, it, d)
    {
      LimitWraps(base, range, rs[it].id);
      if rs[it].id - prev > MAX_DEPOT_ID_GAP {
        ScanMissesRest(rs, base, range, start, it, prev);
        CollectedAtEnd(result, rs, base, start, it, prev);
        return;
      }
      ScanOn(rs, base, start, it, prev);
      ScanOneMore(rs, base, start, it);
      ghost var was := result;
      if !IsCommonRedistOrInvalid(rs[it].id) {
        var text := BytesToHex(rs[it].key);
        result := result[rs[it].id := text];
      }
      CollectOneMore(was, result, rs, base, start, it);
      prev := rs[it].id;
      it := it + 1;
    }
    ScanReachedLimit(rs, base, range, start, it, prev);
    ScanLimitIsHigh(rs, base, range, start, it, prev);
    CollectedAtEnd(result, rs, base, start, it, prev);
  }

  lemma CollectOneMore(was: map<u32, seq<byte>>, result: map<u32, seq<byte>>, rs: seq<KeyRecord>, base: u32,
                       start: nat, i: nat)
    requires start <= i < |rs| && Collecting(was, rs, base, start, i)
    requires result == if IsCommonRedistOrInvalid(rs[i].id) then was else was[rs[i].id := ToHex(rs[i].key)]
    ensures Collecting(result, rs, base, start, i + 1)
  {
    hide LastIn, ScannedUpTo;
    ScanOneMore(rs, base, start, i);
    forall d | d in result
      ensures LastIn(rs, if ScannedUpTo(rs, base, start, i + 1, d) then i + 1 else |rs|, d, result[d])
    {
      if d == rs[i].id && !IsCommonRedistOrInvalid(d) {
        LastIsNew(rs, i);
      } else if ScannedUpTo(rs, base, start, i, d) {
        NotRedist(rs, base, start, i, d);
        LastStays(rs, i, d, result[d]);
      }
    }
  }

  lemma LastIsNew(rs: seq<KeyRecord>, i: nat)
    requires i < |rs|
    ensures LastIn(rs, i + 1, rs[i].id, ToHex(rs[i].key))
  {
    assert NoneFrom(rs, i + 1, i + 1, rs[i].id);
  }

  lemma LastStays(rs: seq<KeyRecord>, i: nat, d: u32, text: seq<byte>)
    requires i < |rs| && LastIn(rs, i, d, text) && rs[i].id != d
    ensures LastIn(rs, i + 1, d, text)
  {
    var j :| 0 <= j < i && j < |rs| && rs[j].id == d && text == ToHex(rs[j].key) && NoneFrom(rs, j + 1, i, d);
    assert NoneFrom(rs, j + 1, i + 1, d);
  }

  lemma NotRedist(rs: seq<KeyRecord>, base: u32, start: nat, i: nat, d: u32)
    requires ScannedUpTo(rs, base, start, i, d)
    ensures !IsCommonRedistOrInvalid(d)
  {
  }

  /** When the scan stops at `i`, no later record has an id that was scanned. */
  lemma CollectedAtEnd(result: map<u32, seq<byte>>, rs: seq<KeyRecord>, base: u32, start: nat, i: nat, prev: u32)
    requires Sorted(rs) && ScanAt(rs, base, start, i, prev) && (i > start && i < |rs| ==> rs[i].id > prev)
    requires Collecting(result, rs, base, start, i)
    ensures Collected(result, rs)
  {
    hide LastIn, ScannedUpTo, Reaches;
    forall d | d in result
      ensures LastIn(rs, |rs|, d, result[d])
    {
      if ScannedUpTo(rs, base, start, i, d) {
        NothingLater(rs, base, start, i, prev, d);
        LastStaysTo(rs, i, |rs|, d, result[d]);
      }
    }
  }

  lemma NothingLater(rs: seq<KeyRecord>, base: u32, start: nat, i: nat, prev: u32, d: u32)
    requires Sorted(rs) && ScanAt(rs, base, start, i, prev) && (i > start && i < |rs| ==> rs[i].id > prev)
    requires ScannedUpTo(rs, base, start, i, d)
    ensures NoneFrom(rs, i, |rs|, d)
  {
    hide Reaches;
    var j :| start <= j < i && j < |rs| && rs[j].id == d;
    assert d <= prev;
  }

  lemma LastStaysTo(rs: seq<KeyRecord>, i: nat, n: nat, d: u32, text: seq<byte>)
    requires i <= n <= |rs| && LastIn(rs, i, d, text) && NoneFrom(rs, i, n, d)
    ensures LastIn(rs, n, d, text)
  {
    var j :| 0 <= j < i && j < |rs| && rs[j].id == d && text == ToHex(rs[j].key) && NoneFrom(rs, j + 1, i, d);
    assert NoneFrom(rs, j + 1, n, d);
  }

  lemma ScanLimitIsHigh(rs: seq<KeyRecord>, base: u32, range: u32, start: nat, i: nat, prev: u32)
    requires ScanAt(rs, base, start, i, prev) && (i == |rs| || rs[i].id > (base + range) % TWO_32)
    requires i > start ==> base + range < TWO_32 && rs[i - 1].id <= base + range
    ensures i > start && i < |rs| ==> rs[i].id > prev
  {
    hide Reaches;
    WrapsBelow(base, range);
  }

  /** Without duplicate ids, what a scan collects is what a lookup answers. */
  lemma CollectedIsLookup(result: map<u32, seq<byte>>, rs: seq<KeyRecord>, d: u32)
    requires StrictlySorted(rs) && Collected(result, rs) && d in result
    ensures result[d] == KeyText(rs, d)
  {
    assert LastIn(rs, |rs|, d, result[d]);
    var j :| 0 <= j < |rs| && rs[j].id == d && result[d] == ToHex(rs[j].key) && NoneFrom(rs, j + 1, |rs|, d);
    FindAtLowerBound(rs, d, j);
  }

  /** A depot among the records scanned so far that is kept. */
  predicate ScannedUpTo(rs: seq<KeyRecord>, base: u32, start: nat, i: nat, d: u32) {
    !IsCommonRedistOrInvalid(d) && exists j :: start <= j < i && j < |rs| && rs[j].id == d
  }

  lemma ScanBegin(rs: seq<KeyRecord>, base: u32, start: nat, before: map<u32, seq<byte>>)
    requires IsLowerBound(rs, base, start) && Collected(before, rs)
    ensures ScanAt(rs, base, start, start, base) && Collecting(before, rs, base, start, start)
    ensures forall d: u32 :: !ScannedUpTo(rs, base, start, start, d)
  {
    hide LastIn;
  }

  /** The limit is computed in 32 bits; when it wraps it lies below every record still to come. */
  lemma LimitWraps(base: u32, range: u32, id: u32)
    requires base <= id <= (base + range) % TWO_32
    ensures base + range < TWO_32 && (base + range) % TWO_32 == base + range
  {
    WrapsBelow(base, range);
  }

  /** The last id of all, asked for itself: in reach, but the wrapped limit hides it. */
  lemma WrappedScanMisses(key: seq<byte>)
    ensures var rs, d := [KeyRecord(TWO_32 - 1, key)], TWO_32 - 1;
            InReach(rs, d, APP_SCAN_RANGE, d) && !InScan(rs, d, APP_SCAN_RANGE, d)
  {
    var rs := [KeyRecord(TWO_32 - 1, key)];
    assert rs[0].id == TWO_32 - 1;
  }

  lemma WrapsBelow(base: u32, range: u32)
    ensures (base + range) % TWO_32 == if base + range < TWO_32 then base + range else base + range - TWO_32
  {
  }

  lemma ScanOneMore(rs: seq<KeyRecord>, base: u32, start: nat, i: nat)
    requires start <= i < |rs|
    ensures forall d: u32 :: ScannedUpTo(rs, base, start, i + 1, d) <==>
                             ScannedUpTo(rs, base, start, i, d) || (!IsCommonRedistOrInvalid(d) && d == rs[i].id)
  {
  }

  /** Where a scan stopped, its finds are exactly the specified ones. */
  lemma ScanMissesRest(rs: seq<KeyRecord>, base: u32, range: u32, start: nat, i: nat, prev: u32)
    requires Sorted(rs) && IsLowerBound(rs, base, start) && ScanAt(rs, base, start, i, prev)
    requires i < |rs| && rs[i].id <= base + range < TWO_32 && rs[i].id - prev > MAX_DEPOT_ID_GAP
    ensures forall d: u32 :: ScannedUpTo(rs, base, start, i, d) <==> InScan(rs, base, range, d)
  {
    hide Reaches, HasNext;
    forall d: u32
      ensures ScannedUpTo(rs, base, start, i, d) <==> InScan(rs, base, range, d)
    {
      if ScannedUpTo(rs, base, start, i, d) {
        var j :| start <= j < i && rs[j].id == d;
        ReachesBelow(rs, base, d, prev);
      }
      if InScan(rs, base, range, d) {
        var k :| 0 <= k < |rs| && rs[k].id == d;
        if k >= i {
          ScanStops(rs, base, start, i, prev, k);
        }
        assert k >= start;
      }
    }
  }

  lemma ReachesBelow(rs: seq<KeyRecord>, base: u32, d: u32, e: u32)
    requires Reaches(rs, base, e) && d <= e
    ensures Reaches(rs, base, d)
  {
  }

  lemma ScanReachedLimit(rs: seq<KeyRecord>, base: u32, range: u32, start: nat, i: nat, prev: u32)
    requires Sorted(rs) && IsLowerBound(rs, base, start) && ScanAt(rs, base, start, i, prev)
    requires i == |rs| || rs[i].id > (base + range) % TWO_32
    requires i > start ==> base + range < TWO_32 && rs[i - 1].id <= base + range
    ensures forall d: u32 :: ScannedUpTo(rs, base, start, i, d) <==> InScan(rs, base, range, d)
  {
    hide Reaches, HasNext;
    forall d: u32
      ensures ScannedUpTo(rs, base, start, i, d) <==> InScan(rs, base, range, d)
    {
      if ScannedUpTo(rs, base, start, i, d) {
        var j :| start <= j < i && rs[j].id == d;
        ReachesBelow(rs, base, d, prev);
      }
      if InScan(rs, base, range, d) {
        var k :| 0 <= k < |rs| && rs[k].id == d;
        assert (base + range) % TWO_32 == base + range;
        assert k >= start && k < i;
      }
    }
  }
}
