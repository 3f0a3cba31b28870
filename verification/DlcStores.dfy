/** The DLC store: which ids are unlockable, which base app lists them, and the cache file that survives a restart. */
module DlcStores {
  import opened Words
  import opened DlcCache

  // ---- lists without duplicates ------------------------------------------------------------------

  /** `list` with each id of `ids` appended that is not there yet; redistributables can be skipped. */
  function Merged(list: seq<u32>, ids: seq<u32>, skipRedist: bool): seq<u32> {
    if ids == [] then list
    else
      var m, d := Merged(list, ids[..|ids| - 1], skipRedist), ids[|ids| - 1];
      if (skipRedist && IsRedist(d)) || d in m then m else m + [d]
  }

  /** Merging keeps the list as a prefix, adds exactly the wanted ids, and introduces no duplicate. */
  lemma {:induction false} MergedIsUnion(list: seq<u32>, ids: seq<u32>, skipRedist: bool)
    ensures list <= Merged(list, ids, skipRedist)
    ensures forall d :: d in Merged(list, ids, skipRedist) <==>
                        d in list || (d in ids && !(skipRedist && IsRedist(d)))
    ensures NoDuplicates(list) ==> NoDuplicates(Merged(list, ids, skipRedist))
  {
    if ids != [] {
      var front, d := ids[..|ids| - 1], ids[|ids| - 1];
      MergedIsUnion(list, front, skipRedist);
      assert ids == front + [d];
    }
  }

  function ListFor(lists: Lists, base: u32): seq<u32> {
    if base in lists then lists[base] else []
  }

  // ---- queries -----------------------------------------------------------------------------------------

  predicate IsLeast(m: u32, s: set<u32>) {
    m in s && forall c :: c in s ==> m <= c
  }

  lemma {:induction false} LeastExists(s: set<u32>)
    requires s != {}
    ensures exists m: u32 :: IsLeast(m, s)
  {
    var m :| m in s;
    var rest := s - {m};
    assert forall c :: c in s ==> c == m || c in rest;
    if rest == {} {
      assert IsLeast(m, s);
    } else {
      LeastExists(rest);
      var k :| IsLeast(k, rest);
      assert IsLeast(if k < m then k else m, s);
    }
  }

  /** The elements of a set in ascending order, as an ordered set is walked. */
  function Ascending(s: set<u32>): (order: seq<u32>)
    ensures forall b :: b in order <==> b in s
  {
    if s == {} then []
    else
      LeastExists(s);
      var m: u32 :| IsLeast(m, s);
      [m] + Ascending(s - {m})
  }

  /** The ids of the bases in the order given, each once. */
  function Gathered(lists: Lists, order: seq<u32>): seq<u32> {
    if order == [] then []
    else Merged(Gathered(lists, order[..|order| - 1]), ListFor(lists, order[|order| - 1]), false)
  }

  lemma {:induction false} GatheredIsUnion(lists: Lists, order: seq<u32>, d: u32)
    ensures NoDuplicates(Gathered(lists, order))
    ensures d in Gathered(lists, order) <==> exists b :: b in order && b in lists && d in lists[b]
  {
    hide Merged;
    if order != [] {
      var front, b := order[..|order| - 1], order[|order| - 1];
      GatheredIsUnion(lists, front, d);
      MergedIsUnion(Gathered(lists, front), ListFor(lists, b), false);
      assert order == front + [b];
    }
  }

  /** A query returns exactly the union of the requested lists, no id twice. */
  lemma QueryIsUnion(lists: Lists, bases: set<u32>, d: u32)
    ensures NoDuplicates(Gathered(lists, Ascending(bases)))
    ensures d in Gathered(lists, Ascending(bases)) <==> exists b :: b in bases && b in lists && d in lists[b]
  {
    hide Gathered, Ascending;
    GatheredIsUnion(lists, Ascending(bases), d);
  }

  // ---- the store as a step system -------------------------------------------------------------------------

  /** Memory, the cache file, and whether the file has been read. */
  datatype State = State(lists: Lists, known: set<u32>, disk: Option<seq<byte>>, initialized: bool)

  datatype Op = Restart | Initialize | Register(base: u32, ids: seq<u32>)

  function RegisteredLists(lists: Lists, base: u32, ids: seq<u32>): Lists {
    lists[base := Merged(ListFor(lists, base), ids, true)]
  }

  /** Only ids that were appended to the list are added to the known ones. */
  function RegisteredKnown(lists: Lists, known: set<u32>, base: u32, ids: seq<u32>): set<u32> {
    known + (Elements(Merged(ListFor(lists, base), ids, true)) - Elements(ListFor(lists, base)))
  }

  ghost predicate Next(s: State, op: Op, t: State) {
    match op
    case Restart => t == State(map[], {}, s.disk, false)
    case Initialize =>
      if s.initialized || s.disk.None? then t == s.(initialized := true)
      else
        var es := FileEntries(s.disk.value);
        t == State(ListsOf(es, s.lists), KnownOf(es, s.known), s.disk, true)
    case Register(base, ids) =>
      if base == 0 || ids == [] then t == s
      else
        && t.lists == RegisteredLists(s.lists, base, ids)
        && t.known == RegisteredKnown(s.lists, s.known, base, ids)
        && t.initialized == s.initialized
        && t.disk.Some? && Saved(t.disk.value, t.lists)
  }

  /** Counts fit the 32-bit fields of the file. */
  predicate Sized(lists: Lists) {
    |lists| < TWO_32 && forall b :: b in lists ==> |lists[b]| < TWO_32
  }

  /** Known is the union of the lists; the file loses nothing when read; and a file not yet read is either the first
      thing in memory or what memory was last saved as. */
  ghost predicate Sound(s: State) {
    && Agrees(s.lists, s.known)
    && (s.disk.Some? ==> NothingLost(FileEntries(s.disk.value)))
    && (s.initialized || s.lists == map[] || (s.disk.Some? && Saved(s.disk.value, s.lists) && Sized(s.lists)))
  }

  lemma RegisterAgrees(lists: Lists, known: set<u32>, base: u32, ids: seq<u32>)
    requires Agrees(lists, known)
    ensures Agrees(RegisteredLists(lists, base, ids), RegisteredKnown(lists, known, base, ids))
  {
    hide Merged, IsRedist;
    var list := ListFor(lists, base);
    var merged := Merged(list, ids, true);
    var after := RegisteredLists(lists, base, ids);
    MergedIsUnion(list, ids, true);
    forall d: u32
      ensures d in RegisteredKnown(lists, known, base, ids) <==> Listed(after, d) && !IsRedist(d)
    {
      if d in merged {
        assert d in after[base];
        if d in list {
          assert d in lists[base];
        }
      }
      if Listed(lists, d) {
        var b :| b in lists && d in lists[b];
        assert b in after && d in after[b];
      }
      if Listed(after, d) && d !in merged {
        var b :| b in after && d in after[b];
        assert b in lists && d in lists[b];
      }
    }
  }

  lemma SavedLosesNothing(file: seq<byte>, lists: Lists) returns (order: seq<u32>)
    requires Saved(file, lists) && Sized(lists)
    ensures IsOrder(order, lists) && FileEntries(file) == Kept(order, lists)
    ensures NothingLost(FileEntries(file))
  {
    hide FileEntries, CacheFile, Kept, NothingLost, DistinctBases;
    order :| IsOrder(order, lists) && file == CacheFile(order, lists);
    OrderIsAsLong(order, lists);
    FileReadsBack(order, lists);
    KeptIsDistinct(order, lists);
    DistinctBasesLoseNothing(FileEntries(file));
  }

  /** Reading entries that memory already holds changes nothing. */
  lemma {:induction false} ReloadChangesNothing(es: seq<Entry>, lists: Lists, known: set<u32>)
    requires forall i :: 0 <= i < |es| ==> es[i].base in lists && es[i].ids == lists[es[i].base]
    requires Agrees(lists, known)
    ensures ListsOf(es, lists) == lists && KnownOf(es, known) == known
  {
    if es != [] {
      var front, e := es[..|es| - 1], es[|es| - 1];
      ReloadChangesNothing(front, lists, known);
      assert e.base in lists && e.ids == lists[e.base];
      forall d | d in Unlockable(e.ids)
        ensures d in known
      {
        assert Listed(lists, d);
      }
    }
  }

  /** Loading a file into empty memory, or into the memory it was saved from. */
  lemma InitializeAgrees(s: State)
    requires Sound(s) && !s.initialized && s.disk.Some?
    ensures var es := FileEntries(s.disk.value); Agrees(ListsOf(es, s.lists), KnownOf(es, s.known))
  {
    hide FileEntries, ListsOf, KnownOf, NothingLost, Saved, Kept;
    var es := FileEntries(s.disk.value);
    if s.lists == map[] {
      NothingKnown(s.known);
      LoadAgreesIff(es);
    } else {
      var order := SavedLosesNothing(s.disk.value, s.lists);
      assert forall i :: 0 <= i < |es| ==> es[i] == Entry(order[i], s.lists[order[i]]);
      ReloadChangesNothing(es, s.lists, s.known);
    }
  }

  lemma NothingKnown(known: set<u32>)
    requires Agrees(map[], known)
    ensures known == {}
  {
    assert forall d: u32 :: !Listed(map[], d);
  }

  lemma StepStaysSound(s: State, op: Op, t: State)
    requires Sound(s) && Next(s, op, t) && Sized(t.lists)
    ensures Sound(t)
  {
    hide FileEntries, ListsOf, KnownOf, NothingLost, Saved, Agrees, RegisteredLists, RegisteredKnown;
    match op
    case Restart =>
      EmptyAgrees();
    case Initialize =>
      if !s.initialized && s.disk.Some? {
        InitializeAgrees(s);
      }
    case Register(base, ids) =>
      if base != 0 && ids != [] {
        RegisterAgrees(s.lists, s.known, base, ids);
        var order := SavedLosesNothing(t.disk.value, t.lists);
      }
  }

  lemma EmptyAgrees()
    ensures Agrees(map[], {})
  {
  }

  /** A run: operations and the states between them. */
  ghost predicate IsRun(states: seq<State>, ops: seq<Op>) {
    && |states| == |ops| + 1
    && states[0].lists == map[] && states[0].known == {} && !states[0].initialized
    && (states[0].disk.Some? ==> NothingLost(FileEntries(states[0].disk.value)))
    && forall i :: 0 <= i < |ops| ==> IsStep(states, ops, i)
  }

  ghost predicate IsStep(states: seq<State>, ops: seq<Op>, i: nat)
    requires |states| == |ops| + 1 && i < |ops|
  {
    Next(states[i], ops[i], states[i + 1]) && Sized(states[i + 1].lists)
  }

  /** However registrations, restarts and loads interleave, the known ids are at every moment exactly the union of
      the lists without the redistributables, and the file on disk can always be loaded without losing an id. */
  lemma {:induction false} KnownIsUnionInEveryRun(states: seq<State>, ops: seq<Op>, n: nat)
    requires IsRun(states, ops) && n <= |ops|
    ensures Sound(states[n])
    decreases n
  {
    hide NothingLost, FileEntries, Saved, Sized, Next;
    if n == 0 {
      EmptyAgrees();
    } else {
      KnownIsUnionInEveryRun(states, ops, n - 1);
      assert IsStep(states, ops, n - 1);
      StepStaysSound(states[n - 1], ops[n - 1], states[n]);
    }
  }

  /** A restart right after a registration brings the whole store back, if no list is over the limit. */
  lemma RestartRestores(s: State, base: u32, ids: seq<u32>, t: State, down: State, up: State)
    requires Sound(s) && base != 0 && ids != []
    requires Next(s, Register(base, ids), t) && Next(t, Restart, down) && Next(down, Initialize, up)
    requires |t.lists| < TWO_32 && AllWithinLimit(t.lists)
    ensures up.lists == t.lists && up.known == t.known && up.initialized
  {
    hide FileEntries, ListsOf, KnownOf, Saved, Agrees, RegisteredLists, RegisteredKnown, NothingLost;
    RegisterAgrees(s.lists, s.known, base, ids);
    SavedStoreIsRestored(t.disk.value, t.lists, t.known);
  }

  // ---- the store itself ---------------------------------------------------------------------------------------

  class DlcStore {
    var known: set<u32>
    var lists: Lists
    var initialized: bool
    var disk: Option<seq<byte>>

    ghost function View(): State
      reads this
    {
      State(lists, known, disk, initialized)
    }

    constructor (file: Option<seq<byte>>)
      ensures View() == State(map[], {}, file, false)
    {
      known, lists, initialized, disk := {}, map[], false, file;
    }

    method Initialize()
      modifies this`known, this`lists, this`initialized
      ensures Next(old(View()), Op.Initialize, View())
    {
      hide FileEntries, ListsOf, KnownOf;
      if initialized {
        return;
      }
      initialized := true;
      if disk.Some? {
        lists, known := LoadEntries(disk.value, lists, known);
      }
    }

    /** In every sound state this is whether some list holds the id and it is no redistributable. */
    method IsKnownDlc(appId: u32) returns (b: bool)
      ensures b <==> appId != 0 && appId in known
      ensures Sound(View()) ==> (b <==> appId != 0 && Listed(lists, appId) && !IsRedist(appId))
    {
      if appId == 0 {
        return false;
      }
      return appId in known;
    }

    method GetDlcsForBases(baseApps: set<u32>) returns (out: seq<u32>)
      ensures out == Gathered(lists, Ascending(baseApps))
    {
      var order := Ascending(baseApps);
      out := [];
      var i := 0;
      while i < |order|
        invariant i <= |order| && out == Gathered(lists, order[..i])
      {
        assert order[..i + 1][..i] == order[..i];
        if order[i] in lists {
          out := MergeInto(out, lists[order[i]], false);
        }
        i := i + 1;
      }
      assert order[..i] == order;
    }

    method RegisterDlcs(base: u32, dlcIds: seq<u32>)
      modifies this`known, this`lists, this`disk
      ensures Next(old(View()), Register(base, dlcIds), View())
    {
      hide Merged, Saved;
      if base == 0 || dlcIds == [] {
        return;
      }
      var list := ListFor(lists, base);
      var merged := MergeInto(list, dlcIds, true);
      known := known + (Elements(merged) - Elements(list));
      lists := lists[base := merged];
      SaveCache();
    }

    method SaveCache()
      modifies this`disk
      ensures disk.Some? && Saved(disk.value, lists)
    {
      hide ListBytes, Body, Preamble;
      var body: seq<byte> := [];
      var rest := lists.Keys;
      ghost var order: seq<u32> := [];
      EmptyBody(lists);
      while rest != {}
        invariant rest <= lists.Keys
        invariant forall b :: b in order <==> b in lists && b !in rest
        invariant forall i, j :: 0 <= i < j < |order| ==> order[i] != order[j]
        invariant body == Body(order, lists)
        decreases rest
      {
        var b :| b in rest;
        BodySnoc(order, b, lists);
        body := body + ListBytes(b, lists[b]);
        order := order + [b];
        rest := rest - {b};
      }
      OrderIsAsLong(order, lists);
      disk := Some(Preamble(|lists|) + body);
      assert disk.value == CacheFile(order, lists);
    }
  }

  /** Reading the cache file into memory, entry by entry. */
  method LoadEntries(data: seq<byte>, lists0: Lists, known0: set<u32>) returns (lists: Lists, known: set<u32>)
    ensures lists == ListsOf(FileEntries(data), lists0) && known == KnownOf(FileEntries(data), known0)
  {
    hide FileEntries, Load32, LoadTurn, Unlockable, ReadIds;
    lists, known := lists0, known0;
    NoEntries(data, lists, known);
    if |data| < PREAMBLE {
      return;
    }
    if Load32(data[..4]) != CACHE_MAGIC || Load32(data[4..8]) != CACHE_VERSION {
      return;
    }
    var entryCount := Load32(data[8..12]);
    ghost var done: seq<Entry> := [];
    var at: nat, i: nat, good := PREAMBLE, 0, true;
    LoadTurnStart(data, lists, known);
    while i < entryCount && good
      invariant i <= entryCount
      invariant LoadTurn(data, at, entryCount - i, good, done, lists0, known0, lists, known)
      decreases entryCount - i
    {
      LoadTurnStep(data, at, entryCount - i, done, lists0, known0, lists, known);
      if |data| < at + 8 {
        return;
      }
      var base, count := Load32(data[at..at + 4]), Load32(data[at + 4..at + 8]);
      if count > MAX_LIST {
        return;
      }
      var dlcs := ReadIds(data, at + 8, count);
      good := |data| >= at + 8 + 4 * count;
      known := AddKnown(known, dlcs);
      lists := lists[base := dlcs];
      done := done + [Entry(base, dlcs)];
      at := at + 8 + 4 * count;
      i := i + 1;
    }
    LoadTurnEnd(data, at, entryCount - i, good, done, lists0, known0, lists, known);
  }

  /** What the loader knows: it has taken the entries in `done`, and the rest follow from the bytes at `at`. */
  ghost predicate LoadTurn(data: seq<byte>, at: nat, n: nat, good: bool, done: seq<Entry>, lists0: Lists,
                           known0: set<u32>, lists: Lists, known: set<u32>) {
    && lists == ListsOf(done, lists0) && known == KnownOf(done, known0)
    && FileEntries(data) == done + if good then EntriesFrom(data, at, n) else []
  }

  lemma LoadTurnStart(data: seq<byte>, lists: Lists, known: set<u32>)
    requires |data| >= PREAMBLE && Load32(data[..4]) == CACHE_MAGIC && Load32(data[4..8]) == CACHE_VERSION
    ensures LoadTurn(data, PREAMBLE, Load32(data[8..12]), true, [], lists, known, lists, known)
  {
    hide FileEntries, EntriesFrom, Load32;
    PreambleRead(data);
    NoEntries(data, lists, known);
  }

  lemma LoadTurnEnd(data: seq<byte>, at: nat, n: nat, good: bool, done: seq<Entry>, lists0: Lists,
                    known0: set<u32>, lists: Lists, known: set<u32>)
    requires LoadTurn(data, at, n, good, done, lists0, known0, lists, known)
    requires !good || EntriesFrom(data, at, n) == [] || n == 0
    ensures lists == ListsOf(FileEntries(data), lists0) && known == KnownOf(FileEntries(data), known0)
  {
    hide FileEntries, ListsOf, KnownOf, EntriesFrom;
    NoMoreEntries(data, at);
    assert done + [] == done;
  }

  lemma LoadTurnStep(data: seq<byte>, at: nat, n: nat, done: seq<Entry>, lists0: Lists, known0: set<u32>,
                     lists: Lists, known: set<u32>)
    requires LoadTurn(data, at, n, true, done, lists0, known0, lists, known) && n > 0
    ensures if |data| < at + 8 || Load32(data[at + 4..at + 8]) > MAX_LIST
            then lists == ListsOf(FileEntries(data), lists0) && known == KnownOf(FileEntries(data), known0)
            else
              var base, count := Load32(data[at..at + 4]), Load32(data[at + 4..at + 8]);
              var ids := ReadIds(data, at + 8, count);
              LoadTurn(data, at + 8 + 4 * count, n - 1, |data| >= at + 8 + 4 * count, done + [Entry(base, ids)],
                       lists0, known0, lists[base := ids], known + Unlockable(ids))
  {
    hide FileEntries, ListsOf, KnownOf, Load32, EntriesFrom, Unlockable, ReadIds;
    TakeEntry(data, at, n);
    if |data| < at + 8 || Load32(data[at + 4..at + 8]) > MAX_LIST {
      LoadTurnEnd(data, at, n, true, done, lists0, known0, lists, known);
    } else {
      var base, count := Load32(data[at..at + 4]), Load32(data[at + 4..at + 8]);
      var e := Entry(base, ReadIds(data, at + 8, count));
      TakeOne(done, e, lists0, known0);
      var next := at + 8 + 4 * count;
      Reassociate(done, [e], if |data| < next then [] else EntriesFrom(data, next, n - 1));
    }
  }

  /** Appending the ids that are not in the list yet, one after the other. */
  method MergeInto(list: seq<u32>, ids: seq<u32>, skipRedist: bool) returns (out: seq<u32>)
    ensures out == Merged(list, ids, skipRedist)
  {
    out := list;
    var i := 0;
    while i < |ids|
      invariant i <= |ids| && out == Merged(list, ids[..i], skipRedist)
    {
      assert ids[..i + 1][..i] == ids[..i];
      if !((skipRedist && IsRedist(ids[i])) || ids[i] in out) {
        out := out + [ids[i]];
      }
      i := i + 1;
    }
    assert ids[..i] == ids;
  }

  method AddKnown(known: set<u32>, dlcs: seq<u32>) returns (out: set<u32>)
    ensures out == known + Unlockable(dlcs)
  {
    out := known;
    var i := 0;
    while i < |dlcs|
      invariant i <= |dlcs| && out == known + Unlockable(dlcs[..i])
    {
      assert dlcs[..i + 1] == dlcs[..i] + [dlcs[i]];
      if !IsRedist(dlcs[i]) {
        out := out + {dlcs[i]};
      }
      i := i + 1;
    }
    assert dlcs[..i] == dlcs;
  }

  lemma NoEntries(data: seq<byte>, lists: Lists, known: set<u32>)
    ensures ListsOf([], lists) == lists && KnownOf([], known) == known
    ensures |data| < PREAMBLE || Load32(data[..4]) != CACHE_MAGIC || Load32(data[4..8]) != CACHE_VERSION ==>
              FileEntries(data) == []
  {
    hide Load32;
  }

  lemma PreambleRead(data: seq<byte>)
    requires |data| >= PREAMBLE && Load32(data[..4]) == CACHE_MAGIC && Load32(data[4..8]) == CACHE_VERSION
    ensures FileEntries(data) == EntriesFrom(data, PREAMBLE, Load32(data[8..12]))
  {
    hide Load32;
  }

  /** One turn of the loop over the entries. */
  lemma TakeEntry(data: seq<byte>, at: nat, n: nat)
    requires n > 0
    ensures |data| < at + 8 ==> EntriesFrom(data, at, n) == []
    ensures |data| >= at + 8 ==>
              var base, count := Load32(data[at..at + 4]), Load32(data[at + 4..at + 8]);
              EntriesFrom(data, at, n) ==
              if count > MAX_LIST then []
              else
                [Entry(base, ReadIds(data, at + 8, count))] +
                if |data| < at + 8 + 4 * count then [] else EntriesFrom(data, at + 8 + 4 * count, n - 1)
  {
    hide Load32, ReadIds;
  }

  lemma NoMoreEntries(data: seq<byte>, at: nat)
    ensures EntriesFrom(data, at, 0) == []
  {
  }

  lemma EmptyBody(lists: Lists)
    ensures Body([], lists) == []
  {
  }

  lemma {:induction false} BodySnoc(order: seq<u32>, b: u32, lists: Lists)
    requires forall c :: c in order + [b] ==> c in lists
    ensures (forall c :: c in order ==> c in lists) && b in lists
    ensures Body(order + [b], lists) == Body(order, lists) + ListBytes(b, lists[b])
  {
    hide ListBytes;
    assert b in order + [b];
    assert forall c :: c in order ==> c in order + [b];
    var all := order + [b];
    if order == [] {
      assert all[1..] == [];
    } else {
      assert all[1..] == order[1..] + [b];
      BodySnoc(order[1..], b, lists);
      assert all[0] == order[0];
    }
  }
}
