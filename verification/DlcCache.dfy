/** What the DLC store keeps on disk and how it is read back. */
module DlcCache {
  import opened Words

  const CACHE_MAGIC: u32 := 0x4F4D4443
  const CACHE_VERSION: u32 := 1
  const MAX_LIST: nat := 10000
  const PREAMBLE: nat := 12

  /** Valve's shared redistributables, which store pages list as if they were DLC. */
  predicate IsRedist(id: u32) {
    228980 <= id <= 228991
  }

  datatype Entry = Entry(base: u32, ids: seq<u32>)

  type Lists = map<u32, seq<u32>>

  // ---- reading ----------------------------------------------------------------------------------

  function ByteAt(data: seq<byte>, at: nat): byte {
    if at < |data| then data[at] else 0
  }

  /** A word of a zero-filled buffer that the bytes from `at` on were read into. */
  function PaddedWord(data: seq<byte>, at: nat): u32 {
    Load32([ByteAt(data, at), ByteAt(data, at + 1), ByteAt(data, at + 2), ByteAt(data, at + 3)])
  }

  function ReadIds(data: seq<byte>, at: nat, count: nat): (ids: seq<u32>)
    ensures |ids| == count
  {
    seq(count, i requires 0 <= i => PaddedWord(data, at + 4 * i))
  }

  /** The entries read from `at` on: a missing header or an implausible count ends the file, and a list that is
      cut short is taken with zeros for what is missing but is the last. */
  function EntriesFrom(data: seq<byte>, at: nat, n: nat): seq<Entry>
    decreases n
  {
    if n == 0 || |data| < at + 8 then []
    else
      var base, count := Load32(data[at..at + 4]), Load32(data[at + 4..at + 8]);
      if count > MAX_LIST then []
      else
        [Entry(base, ReadIds(data, at + 8, count))] +
        if |data| < at + 8 + 4 * count then [] else EntriesFrom(data, at + 8 + 4 * count, n - 1)
  }

  function FileEntries(data: seq<byte>): seq<Entry> {
    if |data| < PREAMBLE || Load32(data[..4]) != CACHE_MAGIC || Load32(data[4..8]) != CACHE_VERSION then []
    else EntriesFrom(data, PREAMBLE, Load32(data[8..12]))
  }

  /** Lists after taking the entries in turn: a later entry of the same base replaces the earlier one. */
  function ListsOf(es: seq<Entry>, before: Lists): Lists {
    if es == [] then before else ListsOf(es[..|es| - 1], before)[es[|es| - 1].base := es[|es| - 1].ids]
  }

  function Unlockable(ids: seq<u32>): set<u32> {
    set d | d in ids && !IsRedist(d)
  }

  /** Known ids after taking the entries in turn. */
  function KnownOf(es: seq<Entry>, before: set<u32>): set<u32> {
    if es == [] then before else KnownOf(es[..|es| - 1], before) + Unlockable(es[|es| - 1].ids)
  }

  lemma TakeOne(es: seq<Entry>, e: Entry, lists: Lists, known: set<u32>)
    ensures ListsOf(es + [e], lists) == ListsOf(es, lists)[e.base := e.ids]
    ensures KnownOf(es + [e], known) == KnownOf(es, known) + Unlockable(e.ids)
  {
    hide Unlockable;
    assert (es + [e])[..|es|] == es;
  }

  // ---- known ids against lists ------------------------------------------------------------------------

  predicate Listed(lists: Lists, d: u32) {
    exists b :: b in lists && d in lists[b]
  }

  /** Known is the union of all lists without the redistributables. */
  ghost predicate Agrees(lists: Lists, known: set<u32>) {
    forall d :: d in known <==> Listed(lists, d) && !IsRedist(d)
  }

  predicate Mentioned(es: seq<Entry>, d: u32) {
    exists i :: 0 <= i < |es| && d in es[i].ids
  }

  predicate IsLast(es: seq<Entry>, j: nat) {
    j < |es| && forall k :: j < k < |es| ==> es[k].base != es[j].base
  }

  /** Some entry that no later one replaces holds `d`. */
  predicate Survives(es: seq<Entry>, d: u32) {
    exists j :: 0 <= j < |es| && IsLast(es, j) && d in es[j].ids
  }

  /** No id of a replaced entry is lost with it. */
  ghost predicate NothingLost(es: seq<Entry>) {
    forall d :: Mentioned(es, d) && !IsRedist(d) ==> Survives(es, d)
  }

  lemma {:induction false} KnownIsMentioned(es: seq<Entry>, d: u32)
    ensures d in KnownOf(es, {}) <==> Mentioned(es, d) && !IsRedist(d)
  {
    if es != [] {
      var front, e := es[..|es| - 1], es[|es| - 1];
      KnownIsMentioned(front, d);
      if Mentioned(front, d) {
        var i :| 0 <= i < |front| && d in front[i].ids;
        assert es[i] == front[i];
      }
      if Mentioned(es, d) && d !in e.ids {
        var i :| 0 <= i < |es| && d in es[i].ids;
        assert front[i] == es[i];
      }
      assert d in e.ids ==> Mentioned(es, d);
    }
  }

  lemma {:induction false} ListComesFromLast(es: seq<Entry>, b: u32) returns (j: nat)
    requires b in ListsOf(es, map[])
    ensures IsLast(es, j) && es[j].base == b && ListsOf(es, map[])[b] == es[j].ids
  {
    var front, e := es[..|es| - 1], es[|es| - 1];
    if e.base == b {
      j := |es| - 1;
    } else {
      j := ListComesFromLast(front, b);
    }
  }

  lemma {:induction false} LastIsListed(es: seq<Entry>, j: nat)
    requires IsLast(es, j)
    ensures es[j].base in ListsOf(es, map[]) && ListsOf(es, map[])[es[j].base] == es[j].ids
  {
    if j < |es| - 1 {
      var front := es[..|es| - 1];
      assert forall k :: 0 <= k < |front| ==> front[k] == es[k];
      LastIsListed(front, j);
      assert es[|es| - 1].base != es[j].base;
    }
  }

  lemma ListedSurvives(es: seq<Entry>, d: u32)
    ensures Listed(ListsOf(es, map[]), d) <==> Survives(es, d)
  {
    hide ListsOf, IsLast;
    if Listed(ListsOf(es, map[]), d) {
      var b :| b in ListsOf(es, map[]) && d in ListsOf(es, map[])[b];
      var j := ListComesFromLast(es, b);
    }
    if Survives(es, d) {
      var j :| 0 <= j < |es| && IsLast(es, j) && d in es[j].ids;
      LastIsListed(es, j);
    }
  }

  lemma SurvivesIsMentioned(es: seq<Entry>, d: u32)
    requires Survives(es, d)
    ensures Mentioned(es, d)
  {
  }

  /** A fresh load knows exactly the listed ids if and only if no replaced entry takes an id with it. */
  lemma LoadAgreesIff(es: seq<Entry>)
    ensures Agrees(ListsOf(es, map[]), KnownOf(es, {})) <==> NothingLost(es)
  {
    hide Survives, Mentioned, Listed, ListsOf, KnownOf, IsRedist;
    forall d: u32
      ensures d in KnownOf(es, {}) <==> Mentioned(es, d) && !IsRedist(d)
      ensures Listed(ListsOf(es, map[]), d) <==> Survives(es, d)
      ensures Survives(es, d) ==> Mentioned(es, d)
    {
      KnownIsMentioned(es, d);
      ListedSurvives(es, d);
      if Survives(es, d) {
        SurvivesIsMentioned(es, d);
      }
    }
  }

  predicate DistinctBases(es: seq<Entry>) {
    forall i, j :: 0 <= i < j < |es| ==> es[i].base != es[j].base
  }

  lemma DistinctBasesLoseNothing(es: seq<Entry>)
    requires DistinctBases(es)
    ensures NothingLost(es)
  {
    forall d: u32 | Mentioned(es, d)
      ensures Survives(es, d)
    {
      var i :| 0 <= i < |es| && d in es[i].ids;
      assert IsLast(es, i);
    }
  }

  // ---- writing -------------------------------------------------------------------------------------------

  function IdBytes(ids: seq<u32>): (s: seq<byte>)
    ensures |s| == 4 * |ids|
  {
    if ids == [] then [] else ToBytes(ids[0], 4) + IdBytes(ids[1..])
  }

  /** One list as saved; the count is cast to 32 bits. */
  function ListBytes(base: u32, ids: seq<u32>): (s: seq<byte>)
    ensures |s| == 8 + 4 * |ids|
  {
    ToBytes(base, 4) + ToBytes(|ids|, 4) + IdBytes(ids)
  }

  /** `order` names every base once: the order the hash map happens to be walked in. */
  ghost predicate IsOrder(order: seq<u32>, lists: Lists) {
    && (forall b :: b in order <==> b in lists)
    && forall i, j :: 0 <= i < j < |order| ==> order[i] != order[j]
  }

  function Body(order: seq<u32>, lists: Lists): seq<byte>
    requires forall b :: b in order ==> b in lists
  {
    if order == [] then [] else ListBytes(order[0], lists[order[0]]) + Body(order[1..], lists)
  }

  function Preamble(count: nat): (s: seq<byte>)
    ensures |s| == PREAMBLE
  {
    ToBytes(CACHE_MAGIC, 4) + ToBytes(CACHE_VERSION, 4) + ToBytes(count, 4)
  }

  function CacheFile(order: seq<u32>, lists: Lists): seq<byte>
    requires forall b :: b in order ==> b in lists
  {
    Preamble(|order|) + Body(order, lists)
  }

  ghost predicate Saved(file: seq<byte>, lists: Lists) {
    exists order: seq<u32> :: IsOrder(order, lists) && file == CacheFile(order, lists)
  }

  // ---- round trip --------------------------------------------------------------------------------------------

  /** The entries a reader gets from a saved body: all of them up to the first list over the limit. */
  function Kept(order: seq<u32>, lists: Lists): (es: seq<Entry>)
    requires forall b :: b in order ==> b in lists
    ensures |es| <= |order|
    ensures forall i :: 0 <= i < |es| ==> es[i] == Entry(order[i], lists[order[i]]) && |es[i].ids| <= MAX_LIST
    ensures |es| < |order| ==> |lists[order[|es|]]| > MAX_LIST
  {
    if order == [] || |lists[order[0]]| > MAX_LIST then []
    else [Entry(order[0], lists[order[0]])] + Kept(order[1..], lists)
  }

  lemma {:induction false} IdBytesAt(ids: seq<u32>, i: nat)
    requires i < |ids|
    ensures IdBytes(ids)[4 * i..4 * i + 4] == ToBytes(ids[i], 4)
  {
    hide ToBytes;
    var w, rest := ToBytes(ids[0], 4), IdBytes(ids[1..]);
    assert IdBytes(ids) == w + rest;
    if i > 0 {
      IdBytesAt(ids[1..], i - 1);
      SliceOfSuffix(w, rest, 4 * i - 4, 4 * i);
    } else {
      assert (w + rest)[0..4] == w;
    }
  }

  lemma SliceInside(p: seq<byte>, m: seq<byte>, s: seq<byte>, lo: nat, hi: nat)
    requires lo <= hi <= |m|
    ensures (p + m + s)[|p| + lo..|p| + hi] == m[lo..hi]
  {
  }

  lemma WholeWord(data: seq<byte>, at: nat)
    requires at + 4 <= |data|
    ensures PaddedWord(data, at) == Load32(data[at..at + 4])
  {
    hide Load32;
    assert data[at..at + 4] == [ByteAt(data, at), ByteAt(data, at + 1), ByteAt(data, at + 2), ByteAt(data, at + 3)];
  }

  lemma StoredWord(data: seq<byte>, at: nat, id: u32)
    requires at + 4 <= |data| && data[at..at + 4] == ToBytes(id, 4)
    ensures PaddedWord(data, at) == id
  {
    hide Load32, ToBytes, PaddedWord;
    WholeWord(data, at);
    LoadStore32(id);
  }

  lemma WordInside(p: seq<byte>, m: seq<byte>, s: seq<byte>, k: nat, id: u32)
    requires k + 4 <= |m| && m[k..k + 4] == ToBytes(id, 4)
    ensures PaddedWord(p + m + s, |p| + k) == id
  {
    hide Load32, ToBytes, PaddedWord;
    SliceInside(p, m, s, k, k + 4);
    StoredWord(p + m + s, |p| + k, id);
  }

  lemma IdReadsBack(p: seq<byte>, ids: seq<u32>, s: seq<byte>, i: nat)
    requires i < |ids|
    ensures PaddedWord(p + IdBytes(ids) + s, |p| + 4 * i) == ids[i]
  {
    hide Load32, ToBytes, IdBytes, PaddedWord;
    IdBytesAt(ids, i);
    WordInside(p, IdBytes(ids), s, 4 * i, ids[i]);
  }

  lemma IdsReadBack(p: seq<byte>, ids: seq<u32>, s: seq<byte>)
    ensures ReadIds(p + IdBytes(ids) + s, |p|, |ids|) == ids
  {
    hide Load32, ToBytes, IdBytes, PaddedWord;
    forall i | 0 <= i < |ids|
      ensures PaddedWord(p + IdBytes(ids) + s, |p| + 4 * i) == ids[i]
    {
      IdReadsBack(p, ids, s, i);
    }
  }

  /** Reading one saved list of at most 2^32 - 1 ids. */
  lemma ListReadsBack(p: seq<byte>, base: u32, ids: seq<u32>, s: seq<byte>)
    requires |ids| < TWO_32
    ensures var data, at := p + ListBytes(base, ids) + s, |p|;
            && Load32(data[at..at + 4]) == base && Load32(data[at + 4..at + 8]) == |ids|
            && ReadIds(data, at + 8, |ids|) == ids
  {
    hide Load32, ToBytes, IdBytes, ReadIds;
    var head := ToBytes(base, 4) + ToBytes(|ids|, 4);
    var own := ListBytes(base, ids);
    var data := p + own + s;
    SliceInside(p, own, s, 0, 4);
    SliceInside(p, own, s, 4, 8);
    assert own[0..4] == ToBytes(base, 4) && own[4..8] == ToBytes(|ids|, 4);
    LoadStore32(base);
    LoadStore32(|ids|);
    assert data == (p + head) + IdBytes(ids) + s;
    IdsReadBack(p + head, ids, s);
  }

  lemma EntryReadsBack(p: seq<byte>, base: u32, ids: seq<u32>, s: seq<byte>, n: nat)
    requires |ids| < TWO_32 && n > 0
    ensures EntriesFrom(p + ListBytes(base, ids) + s, |p|, n) ==
            if |ids| > MAX_LIST then []
            else [Entry(base, ids)] + EntriesFrom(p + ListBytes(base, ids) + s, |p + ListBytes(base, ids)|, n - 1)
  {
    hide Load32, ToBytes, IdBytes, ReadIds, ListBytes;
    ListReadsBack(p, base, ids, s);
  }

  lemma {:induction false} BodyReadsBack(p: seq<byte>, order: seq<u32>, lists: Lists)
    requires forall b :: b in order ==> b in lists && |lists[b]| < TWO_32
    ensures EntriesFrom(p + Body(order, lists), |p|, |order|) == Kept(order, lists)
    decreases |order|
  {
    hide EntriesFrom, Body, ListBytes, Kept;
    if order == [] {
      NoEntriesLeft(p + Body(order, lists), |p|);
      NothingKept(lists);
    } else {
      var b, rest := order[0], order[1..];
      var own, tail := ListBytes(b, lists[b]), Body(rest, lists);
      FirstOfBody(p, order, lists);
      EntryReadsBack(p, b, lists[b], tail, |order|);
      BodyReadsBack(p + own, rest, lists);
    }
  }

  lemma NothingKept(lists: Lists)
    ensures Kept([], lists) == []
  {
  }

  lemma FirstOfBody(p: seq<byte>, order: seq<u32>, lists: Lists)
    requires order != [] && forall b :: b in order ==> b in lists
    ensures var b, rest := order[0], order[1..];
            && p + Body(order, lists) == p + ListBytes(b, lists[b]) + Body(rest, lists)
            && Kept(order, lists) == if |lists[b]| > MAX_LIST then [] else [Entry(b, lists[b])] + Kept(rest, lists)
  {
    hide ListBytes;
    Reassociate(p, ListBytes(order[0], lists[order[0]]), Body(order[1..], lists));
  }

  /** A file with two lists of the same base. */
  function TwiceListed(): seq<byte> {
    Preamble(2) + ListBytes(10, [11]) + ListBytes(10, [12])
  }

  lemma TwiceListedReads()
    ensures FileEntries(TwiceListed()) == [Entry(10, [11]), Entry(10, [12])]
  {
    hide Load32, ToBytes, EntriesFrom, ListBytes;
    var data := TwiceListed();
    PreambleReads(2, ListBytes(10, [11]) + ListBytes(10, [12]));
    assert data == Preamble(2) + (ListBytes(10, [11]) + ListBytes(10, [12]));
    EntryReadsBack(Preamble(2), 10, [11], ListBytes(10, [12]), 2);
    var p := Preamble(2) + ListBytes(10, [11]);
    assert data == p + ListBytes(10, [12]) + [];
    EntryReadsBack(p, 10, [12], [], 1);
    NoEntriesLeft(data, |p + ListBytes(10, [12])|);
  }

  lemma NoEntriesLeft(data: seq<byte>, at: nat)
    ensures EntriesFrom(data, at, 0) == []
  {
  }

  lemma PreambleReads(count: nat, rest: seq<byte>)
    requires count < TWO_32
    ensures FileEntries(Preamble(count) + rest) == EntriesFrom(Preamble(count) + rest, PREAMBLE, count)
  {
    hide Load32, ToBytes, EntriesFrom;
    var data := Preamble(count) + rest;
    assert data[..4] == ToBytes(CACHE_MAGIC, 4) && data[4..8] == ToBytes(CACHE_VERSION, 4);
    assert data[8..12] == ToBytes(count, 4);
    LoadStore32(CACHE_MAGIC);
    LoadStore32(CACHE_VERSION);
    LoadStore32(count);
  }

  /** After reading that file the id of the first list is known although no list holds it. */
  lemma ReplacedListLeavesItsIds()
    ensures var es := FileEntries(TwiceListed());
            && 11 in KnownOf(es, {}) && !Listed(ListsOf(es, map[]), 11)
            && !Agrees(ListsOf(es, map[]), KnownOf(es, {}))
  {
    hide FileEntries, TwiceListed, ListsOf, KnownOf, Listed, Agrees, IsRedist;
    TwiceListedReads();
    ReplacedInTwice();
    var es := FileEntries(TwiceListed());
    KnownIsMentioned(es, 11);
    ListedSurvives(es, 11);
    LoadAgreesIff(es);
  }

  lemma ReplacedInTwice()
    ensures var es := [Entry(10, [11]), Entry(10, [12])];
            Mentioned(es, 11) && !IsRedist(11) && !Survives(es, 11) && !NothingLost(es)
  {
    var es := [Entry(10, [11]), Entry(10, [12])];
    assert es[0].ids[0] == 11;
    assert es[1].base == es[0].base;
    assert !IsLast(es, 0);
    assert Mentioned(es, 11) && !Survives(es, 11);
  }

  lemma FileReadsBack(order: seq<u32>, lists: Lists)
    requires forall b :: b in order ==> b in lists && |lists[b]| < TWO_32
    requires |order| < TWO_32
    ensures FileEntries(CacheFile(order, lists)) == Kept(order, lists)
  {
    hide FileEntries, Preamble, Body, EntriesFrom;
    PreambleReads(|order|, Body(order, lists));
    BodyReadsBack(Preamble(|order|), order, lists);
  }

  lemma KeptIsDistinct(order: seq<u32>, lists: Lists)
    requires IsOrder(order, lists)
    ensures DistinctBases(Kept(order, lists))
  {
    hide Kept;
  }

  predicate AllWithinLimit(lists: Lists) {
    forall b :: b in lists ==> |lists[b]| <= MAX_LIST
  }

  /** Loading what was saved gives every list back if and only if each has at most 10000 ids; a longer one cuts the
      rest of the file off. */
  lemma SaveThenLoadIff(file: seq<byte>, lists: Lists)
    requires Saved(file, lists) && |lists| < TWO_32 && forall b :: b in lists ==> |lists[b]| < TWO_32
    ensures ListsOf(FileEntries(file), map[]) == lists <==> AllWithinLimit(lists)
  {
    hide FileEntries, CacheFile, ListsOf, Kept;
    var order :| IsOrder(order, lists) && file == CacheFile(order, lists);
    OrderIsAsLong(order, lists);
    FileReadsBack(order, lists);
    var es := Kept(order, lists);
    KeptIsDistinct(order, lists);
    forall b: u32
      ensures b in ListsOf(es, map[]) <==> exists i :: 0 <= i < |es| && es[i].base == b
      ensures b in ListsOf(es, map[]) ==> b in lists && ListsOf(es, map[])[b] == lists[b]
    {
      DistinctEntry(es, b);
      if b in ListsOf(es, map[]) {
        var j := ListComesFromLast(es, b);
      }
    }
    hide AllWithinLimit, IsOrder;
    if |es| == |order| {
      AllKept(order, lists);
      assert ListsOf(es, map[]).Keys == lists.Keys;
    } else {
      FirstTooLong(order, lists);
      assert order[|es|] !in ListsOf(es, map[]);
    }
  }

  lemma FirstTooLong(order: seq<u32>, lists: Lists)
    requires IsOrder(order, lists) && |Kept(order, lists)| < |order|
    ensures order[|Kept(order, lists)|] in lists && !AllWithinLimit(lists)
    ensures forall i :: 0 <= i < |Kept(order, lists)| ==> Kept(order, lists)[i].base != order[|Kept(order, lists)|]
  {
    hide Kept;
    var b := order[|Kept(order, lists)|];
    assert b in order && |lists[b]| > MAX_LIST;
  }

  lemma AllKept(order: seq<u32>, lists: Lists)
    requires IsOrder(order, lists) && |Kept(order, lists)| == |order|
    ensures AllWithinLimit(lists)
    ensures forall b :: b in lists <==> exists i :: 0 <= i < |order| && Kept(order, lists)[i].base == b
  {
    hide Kept;
    var es := Kept(order, lists);
    forall b | b in lists
      ensures exists i :: 0 <= i < |order| && es[i].base == b
      ensures |lists[b]| <= MAX_LIST
    {
      assert b in order;
      var i :| 0 <= i < |order| && order[i] == b;
      assert es[i].base == b;
    }
  }

  lemma DistinctEntry(es: seq<Entry>, b: u32)
    requires DistinctBases(es)
    ensures b in ListsOf(es, map[]) <==> exists i :: 0 <= i < |es| && es[i].base == b
  {
    hide ListsOf;
    if b in ListsOf(es, map[]) {
      var j := ListComesFromLast(es, b);
    }
    if i :| 0 <= i < |es| && es[i].base == b {
      LastIsListed(es, i);
    }
  }

  lemma OrderIsAsLong(order: seq<u32>, lists: Lists)
    requires IsOrder(order, lists)
    ensures |order| == |lists|
  {
    SetOfDistinct(order);
    assert Elements(order) == lists.Keys;
  }

  function Elements(s: seq<u32>): set<u32> {
    set b | b in s
  }

  lemma {:induction false} SetOfDistinct(order: seq<u32>)
    requires forall i, j :: 0 <= i < j < |order| ==> order[i] != order[j]
    ensures |Elements(order)| == |order|
  {
    if order == [] {
      assert Elements(order) == {};
    } else {
      var front, b := order[..|order| - 1], order[|order| - 1];
      SetOfDistinct(front);
      assert order == front + [b];
      assert b !in Elements(front);
      assert Elements(order) == Elements(front) + {b};
    }
  }

  /** A saved file always loads into a state where known and lists agree, so a store that agreed before saving is
      restored completely. */
  lemma SavedStoreIsRestored(file: seq<byte>, lists: Lists, known: set<u32>)
    requires Saved(file, lists) && Agrees(lists, known) && AllWithinLimit(lists) && |lists| < TWO_32
    ensures ListsOf(FileEntries(file), map[]) == lists && KnownOf(FileEntries(file), {}) == known
  {
    hide FileEntries, CacheFile, ListsOf, KnownOf, Kept, Listed, NothingLost, DistinctBases;
    var order :| IsOrder(order, lists) && file == CacheFile(order, lists);
    OrderIsAsLong(order, lists);
    FileReadsBack(order, lists);
    KeptIsDistinct(order, lists);
    DistinctBasesLoseNothing(FileEntries(file));
    LoadAgreesIff(FileEntries(file));
    SaveThenLoadIff(file, lists);
  }
}
