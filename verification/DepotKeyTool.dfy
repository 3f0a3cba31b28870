/** The key packing tool: the writer of the key file, its own reader, and the round trip through the store. */
module DepotKeyTool {
  import opened Words
  import opened TextCodecs
  import opened DepotKeys

  /** Text as code points. */
  type Text = seq<nat>

  // ---- which keys are valid ---------------------------------------------------------------------

  /** What `str.strip` removes. */
  predicate IsSpace(c: nat) {
    || 0x09 <= c <= 0x0D || 0x1C <= c <= 0x20 || c == 0x85 || c == 0xA0 || c == 0x1680
    || 0x2000 <= c <= 0x200A || c == 0x2028 || c == 0x2029 || c == 0x202F || c == 0x205F || c == 0x3000
  }

  function Strip(t: Text): Text {
    if t == [] then t
    else if IsSpace(t[0]) then Strip(t[1..])
    else if IsSpace(t[|t| - 1]) then Strip(t[..|t| - 1])
    else t
  }

  /** Only ASCII letters matter here: no other character lowers to a hex digit. */
  function LowerChar(c: nat): nat {
    if 'A' as int <= c <= 'Z' as int then c + 32 else c
  }

  function Clean(t: Text): (s: Text)
    ensures |s| == |Strip(t)|
  {
    seq(|Strip(t)|, i requires 0 <= i < |Strip(t)| => LowerChar(Strip(t)[i]))
  }

  predicate AllLowerHex(s: Text) {
    forall i :: 0 <= i < |s| ==> IsLowerHex(s[i])
  }

  /** 64 hex digits, at least eight of them different. */
  predicate IsKeyText(s: Text) {
    |s| == 64 && AllLowerHex(s) && |set c | c in s| >= 8
  }

  function AsBytes(s: Text): (b: seq<byte>)
    requires AllLowerHex(s)
    ensures b == s
  {
    s
  }

  /** The raw key of a text, for a valid one. */
  function KeyOf(t: Text): (key: Option<seq<byte>>)
    ensures key.Some? ==> |key.value| == KEY
  {
    if IsKeyText(Clean(t)) then Some(FromHex(AsBytes(Clean(t)))) else None
  }

  lemma UniformIsLowEntropy(s: Text, c: nat)
    requires |s| == 64 && forall i :: 0 <= i < |s| ==> s[i] == c
    ensures !IsKeyText(s)
  {
    assert s[0] == c;
    assert (set d | d in s) == {c};
  }

  method ValidateHexKey(t: Text) returns (key: Option<seq<byte>>)
    ensures key == KeyOf(t)
  {
    hide FromHex, Strip;
    var clean := Clean(t);
    if |clean| != 64 || exists i :: 0 <= i < |clean| && !IsLowerHex(clean[i]) {
      return None;
    }
    if clean == seq(64, _ => '0' as int) || clean == seq(64, _ => 'f' as int) {
      UniformIsLowEntropy(clean, clean[0]);
      return None;
    }
    var uniqueChars := |set c | c in clean|;
    if uniqueChars < 8 {
      return None;
    }
    var hex := AsBytes(clean);
    var raw := HexToBytes(hex);
    return Some(raw);
  }

  /** The hex text of a valid key is its cleaned text. */
  lemma KeyTextIsClean(t: Text)
    requires KeyOf(t).Some?
    ensures ToHex(KeyOf(t).value) == Clean(t)
  {
    hide FromHex, ToHex, Strip;
    var s := AsBytes(Clean(t));
    HexTextRoundTrip(s);
    assert Lowered(s) == s;
  }

  /** Cleaning a valid key's cleaned text changes nothing, so it is still valid and means the same key. */
  lemma CleanTwice(t: Text)
    requires KeyOf(t).Some?
    ensures Clean(Clean(t)) == Clean(t) && KeyOf(Clean(t)) == KeyOf(t)
  {
    var s := Clean(t);
    assert IsLowerHex(s[0]) && IsLowerHex(s[63]);
    assert Strip(s) == s;
    assert Clean(s) == s;
  }

  /** The writer's magic is four characters, the reader's an integer. */
  const MAGIC: seq<byte> := ['O' as int, 'M' as int, 'K' as int, 'Y' as int]

  // ---- the file ------------------------------------------------------------------------------------

  predicate KeysSized(rs: seq<KeyRecord>) {
    forall i :: 0 <= i < |rs| ==> |rs[i].key| == KEY
  }

  function EntryBytes(rs: seq<KeyRecord>): (s: seq<byte>)
    requires KeysSized(rs)
    ensures |s| == RECORD * |rs|
  {
    if rs == [] then []
    else EntryBytes(rs[..|rs| - 1]) + ToBytes(rs[|rs| - 1].id, 4) + rs[|rs| - 1].key
  }

  function HeaderBytes(count: nat): (s: seq<byte>)
    ensures |s| == HEADER
  {
    MAGIC + ToBytes(CURRENT_VERSION, 4) + ToBytes(count, 4)
  }

  function FileOf(rs: seq<KeyRecord>): (s: seq<byte>)
    requires KeysSized(rs)
    ensures |s| == HEADER + RECORD * |rs|
  {
    HeaderBytes(|rs|) + EntryBytes(rs)
  }

  /** The records of a key map: one for each id with a valid key, ids strictly ascending. */
  predicate Packs(rs: seq<KeyRecord>, m: map<u32, Text>) {
    && StrictlySorted(rs)
    && (forall i :: 0 <= i < |rs| ==> rs[i].id in m && KeyOf(m[rs[i].id]) == Some(rs[i].key))
    && (forall d :: d in m && KeyOf(m[d]).Some? ==> Holds(rs, d))
  }

  lemma PackedKeysAreSized(rs: seq<KeyRecord>, m: map<u32, Text>)
    requires Packs(rs, m)
    ensures KeysSized(rs)
  {
  }

  lemma {:induction false} EntryAt(rs: seq<KeyRecord>, i: nat)
    requires KeysSized(rs) && i < |rs|
    ensures EntryBytes(rs)[RECORD * i..RECORD * i + RECORD] == ToBytes(rs[i].id, 4) + rs[i].key
  {
    hide ToBytes;
    var front, r := rs[..|rs| - 1], rs[|rs| - 1];
    var before, own := EntryBytes(front), ToBytes(r.id, 4) + r.key;
    assert EntryBytes(rs) == before + own;
    if i < |front| {
      EntryAt(front, i);
      SliceOfPrefix(before, own, RECORD * i, RECORD * i + RECORD);
    } else {
      assert (before + own)[|before|..|before| + RECORD] == own;
    }
  }

  lemma MagicsAgree()
    ensures ToBytes(OMKY_MAGIC, 4) == MAGIC
  {
    assert ToBytes(0x59, 1) == ['Y' as int];
    assert ToBytes(0x594B, 2) == ['K' as int, 'Y' as int];
    assert ToBytes(0x594B4D, 3) == ['M' as int, 'K' as int, 'Y' as int];
  }

  lemma HeaderParts(count: nat, rest: seq<byte>)
    ensures var data := HeaderBytes(count) + rest;
            data[..4] == MAGIC && data[4..8] == ToBytes(CURRENT_VERSION, 4) && data[8..12] == ToBytes(count, 4)
  {
    hide ToBytes;
  }

  /** The store accepts a packed file exactly up to its record limit, and reads the records that were packed. */
  lemma PackedFileReads(rs: seq<KeyRecord>)
    requires KeysSized(rs) && |rs| < TWO_32
    ensures Accepts(FileOf(rs)) <==> |rs| <= MAX_RECORD_COUNT
    ensures CountOf(FileOf(rs)) == |rs|
    ensures RawRecords(FileOf(rs), |rs|) == rs
  {
    hide ToBytes, EntryBytes, RawRecords, Load32, HeaderBytes;
    HeaderParts(|rs|, EntryBytes(rs));
    MagicsAgree();
    LoadStore32(OMKY_MAGIC);
    LoadStore32(CURRENT_VERSION);
    LoadStore32(|rs|);
    RawRecordsOfFile(rs, |rs|);
    assert rs[..|rs|] == rs;
  }

  lemma {:induction false} RawRecordsOfFile(rs: seq<KeyRecord>, n: nat)
    requires KeysSized(rs) && n <= |rs|
    ensures RawRecords(FileOf(rs), n) == rs[..n]
  {
    hide ToBytes, EntryBytes, Load32, HeaderBytes, RecordAt, FileOf;
    if n > 0 {
      RawRecordsOfFile(rs, n - 1);
      RecordOfFile(rs, n - 1);
      assert rs[..n] == rs[..n - 1] + [rs[n - 1]];
    }
  }

  lemma RecordOfFile(rs: seq<KeyRecord>, i: nat)
    requires KeysSized(rs) && i < |rs|
    ensures RecordAt(FileOf(rs), HEADER + i * RECORD) == rs[i]
  {
    hide ToBytes, EntryBytes, Load32, HeaderBytes;
    var data, at := FileOf(rs), HEADER + i * RECORD;
    EntryAt(rs, i);
    SliceOfSuffix(HeaderBytes(|rs|), EntryBytes(rs), RECORD * i, RECORD * i + RECORD);
    var own := ToBytes(rs[i].id, 4) + rs[i].key;
    assert data[at..at + RECORD] == own;
    assert data[at..at + 4] == own[..4] == ToBytes(rs[i].id, 4);
    assert data[at + 4..at + RECORD] == own[4..] == rs[i].key;
    LoadStore32(rs[i].id);
  }

  // ---- writing -------------------------------------------------------------------------------------

  /** The records collected so far: one for each visited id with a valid key. */
  predicate Gathered(rs: seq<KeyRecord>, m: map<u32, Text>, visited: set<u32>) {
    && DistinctIds(rs)
    && (forall i :: 0 <= i < |rs| ==> rs[i].id in visited && rs[i].id in m && KeyOf(m[rs[i].id]) == Some(rs[i].key))
    && (forall d :: d in visited && d in m && KeyOf(m[d]).Some? ==> Holds(rs, d))
  }

  lemma GatherOne(rs: seq<KeyRecord>, m: map<u32, Text>, visited: set<u32>, d: u32)
    requires Gathered(rs, m, visited) && d in m && d !in visited
    ensures KeyOf(m[d]).None? ==> Gathered(rs, m, visited + {d})
    ensures KeyOf(m[d]).Some? ==> Gathered(rs + [KeyRecord(d, KeyOf(m[d]).value)], m, visited + {d})
  {
    hide KeyOf;
    if KeyOf(m[d]).Some? {
      var more := rs + [KeyRecord(d, KeyOf(m[d]).value)];
      assert more[|rs|].id == d;
      forall e | e in visited + {d} && e in m && KeyOf(m[e]).Some?
        ensures Holds(more, e)
      {
        if e in visited {
          var i :| 0 <= i < |rs| && rs[i].id == e;
          assert more[i].id == e;
        }
      }
    }
  }

  /** A dictionary holding one valid key for each id of the map that has one. */
  predicate Tabled(t: map<u32, seq<byte>>, m: map<u32, Text>) {
    && (forall d :: d in t ==> d in m && KeyOf(m[d]) == Some(t[d]))
    && (forall d :: d in m && KeyOf(m[d]).Some? ==> d in t)
  }

  /** Filling a dictionary from the gathered records; there is nothing for it to overwrite. */
  method Deduplicate(rs: seq<KeyRecord>, ghost m: map<u32, Text>) returns (deduped: map<u32, seq<byte>>)
    requires forall i :: 0 <= i < |rs| ==> rs[i].id in m && KeyOf(m[rs[i].id]) == Some(rs[i].key)
    requires forall d :: d in m && KeyOf(m[d]).Some? ==> Holds(rs, d)
    ensures Tabled(deduped, m)
  {
    hide KeyOf;
    deduped := map[];
    var i := 0;
    while i < |rs|
      invariant i <= |rs|
      invariant forall d :: d in deduped ==> d in m && KeyOf(m[d]) == Some(deduped[d])
      invariant forall k :: 0 <= k < i ==> rs[k].id in deduped
    {
      deduped := deduped[rs[i].id := rs[i].key];
      i := i + 1;
    }
  }

  method ItemsSorted(t: map<u32, seq<byte>>, ghost m: map<u32, Text>) returns (rs: seq<KeyRecord>)
    requires Tabled(t, m)
    ensures Packs(rs, m)
  {
    hide KeyOf, StrictlySorted, DistinctIds, Packs, Gathered;
    var items: seq<KeyRecord> := [];
    var rest := t.Keys;
    GatherNothing(m);
    assert t.Keys - rest == {};
    while rest != {}
      invariant rest <= t.Keys && Gathered(items, m, t.Keys - rest)
      decreases rest
    {
      var d :| d in rest;
      GatherOne(items, m, t.Keys - rest, d);
      items := items + [KeyRecord(d, t[d])];
      assert t.Keys - (rest - {d}) == t.Keys - rest + {d};
      rest := rest - {d};
    }
    assert t.Keys - rest == t.Keys;
    rs := SortRecords(items);
    SortedPacks(rs, items, m, t.Keys);
  }

  lemma GatherNothing(m: map<u32, Text>)
    ensures Gathered([], m, {})
  {
  }

  lemma SortedPacks(rs: seq<KeyRecord>, items: seq<KeyRecord>, m: map<u32, Text>, visited: set<u32>)
    requires Gathered(items, m, visited) && multiset(rs) == multiset(items)
    requires DistinctIds(items) ==> StrictlySorted(rs)
    requires forall d :: d in m && KeyOf(m[d]).Some? ==> d in visited
    ensures Packs(rs, m)
  {
    hide KeyOf;
    forall i | 0 <= i < |rs|
      ensures rs[i].id in m && KeyOf(m[rs[i].id]) == Some(rs[i].key)
    {
      assert rs[i] in multiset(rs);
      assert rs[i] in items;
    }
    forall d | d in m && KeyOf(m[d]).Some?
      ensures Holds(rs, d)
    {
      var i :| 0 <= i < |items| && items[i].id == d;
      assert items[i] in multiset(rs);
      assert items[i] in rs;
    }
  }

  /** The records, their number, and the file they are written to, if the number fits 32 bits. */
  predicate PackedAs(packed: seq<KeyRecord>, m: map<u32, Text>, file: Option<seq<byte>>, entryCount: nat) {
    && Packs(packed, m) && KeysSized(packed) && entryCount == |packed|
    && file == if entryCount < TWO_32 then Some(FileOf(packed)) else None
  }

  /** Packing: the file holds the valid keys of the map; a count that does not fit 32 bits is refused. */
  method PackKeysToBin(m: map<u32, Text>) returns (file: Option<seq<byte>>, entryCount: nat)
    ensures exists packed :: PackedAs(packed, m, file, entryCount)
    ensures file.Some? <==> entryCount < 0x1_0000_0000
  {
    hide KeyOf, StrictlySorted, DistinctIds, Packs, Gathered, Tabled, EntryBytes, Sorted;
    var valid: seq<KeyRecord> := [];
    var rest := m.Keys;
    GatherNothing(m);
    assert m.Keys - rest == {};
    while rest != {}
      invariant rest <= m.Keys && Gathered(valid, m, m.Keys - rest)
      decreases rest
    {
      var d :| d in rest;
      GatherOne(valid, m, m.Keys - rest, d);
      var raw := ValidateHexKey(m[d]);
      if raw.Some? {
        valid := valid + [KeyRecord(d, raw.value)];
      }
      assert m.Keys - (rest - {d}) == m.Keys - rest + {d};
      rest := rest - {d};
    }
    assert m.Keys - rest == m.Keys;
    var ordered := SortRecords(valid);
    SortedPacks(ordered, valid, m, m.Keys);
    PackedIsTable(ordered, m);
    var deduped := Deduplicate(ordered, m);
    var entries := ItemsSorted(deduped, m);
    PackedKeysAreSized(entries, m);
    entryCount := |entries|;
    if entryCount >= TWO_32 {
      assert PackedAs(entries, m, None, entryCount);
      return None, entryCount;
    }
    var body := WriteEntries(entries);
    file := Some(HeaderBytes(entryCount) + body);
    assert PackedAs(entries, m, file, entryCount);
  }

  lemma PackedIsTable(rs: seq<KeyRecord>, m: map<u32, Text>)
    requires Packs(rs, m)
    ensures forall i :: 0 <= i < |rs| ==> rs[i].id in m && KeyOf(m[rs[i].id]) == Some(rs[i].key)
    ensures forall d :: d in m && KeyOf(m[d]).Some? ==> Holds(rs, d)
  {
    hide KeyOf;
  }

  method WriteEntries(rs: seq<KeyRecord>) returns (out: seq<byte>)
    requires KeysSized(rs)
    ensures out == EntryBytes(rs)
  {
    hide ToBytes;
    out := [];
    var i := 0;
    assert rs[..0] == [];
    while i < |rs|
      invariant i <= |rs| && out == EntryBytes(rs[..i])
    {
      assert rs[..i + 1][..i] == rs[..i];
      out := out + ToBytes(rs[i].id, 4) + rs[i].key;
      i := i + 1;
    }
    assert rs[..i] == rs;
  }

  // ---- reading back ----------------------------------------------------------------------------------

  /** What the tool's own reader takes: the store's conditions without a record limit. */
  predicate Unpackable(data: seq<byte>) {
    && |data| >= HEADER && data[..4] == MAGIC && Load32(data[4..8]) == CURRENT_VERSION
    && |data| >= HEADER + CountOf(data) * RECORD
  }

  /** The dictionary of a record list: the last record of an id counts. */
  function Dict(rs: seq<KeyRecord>): map<u32, Text> {
    if rs == [] then map[] else Dict(rs[..|rs| - 1])[rs[|rs| - 1].id := ToHex(rs[|rs| - 1].key)]
  }

  method UnpackBinToDict(data: seq<byte>) returns (result: Option<map<u32, Text>>)
    ensures result == if Unpackable(data) then Some(Dict(RawRecords(data, CountOf(data)))) else None
  {
    hide ToHex, Load32, Dict;
    if |data| < HEADER {
      return None;
    }
    if data[..4] != MAGIC {
      return None;
    }
    var version, count := Load32(data[4..8]), Load32(data[8..12]);
    if version != CURRENT_VERSION {
      return None;
    }
    if |data| < HEADER + count * RECORD {
      return None;
    }
    var table: map<u32, Text> := map[];
    var offset, n := HEADER, 0;
    DictGrows(data, 0);
    while n < count
      invariant n <= count && offset == HEADER + n * RECORD
      invariant table == Dict(RawRecords(data, n))
    {
      DictGrows(data, n + 1);
      var rawKey := data[offset + 4..offset + RECORD];
      var text := BytesToHex(rawKey);
      table := table[Load32(data[offset..offset + 4]) := text];
      offset := offset + RECORD;
      n := n + 1;
    }
    return Some(table);
  }

  lemma DictGrows(data: seq<byte>, n: nat)
    requires |data| >= HEADER + n * RECORD
    ensures n == 0 ==> Dict(RawRecords(data, n)) == map[]
    ensures n > 0 ==>
              var r := RecordAt(data, HEADER + (n - 1) * RECORD);
              Dict(RawRecords(data, n)) == Dict(RawRecords(data, n - 1))[r.id := ToHex(r.key)]
  {
    hide ToHex, RecordAt;
    if n > 0 {
      var rs := RawRecords(data, n);
      assert rs[..|rs| - 1] == RawRecords(data, n - 1);
    }
  }

  lemma {:induction false} DictOfStrictlySorted(rs: seq<KeyRecord>, d: u32)
    requires StrictlySorted(rs)
    ensures d in Dict(rs) <==> Find(rs, d).Some?
    ensures d in Dict(rs) ==> Dict(rs)[d] == KeyText(rs, d)
  {
    hide ToHex, Find;
    if rs == [] {
      FindHolds(rs, d);
    } else {
      var front, r := rs[..|rs| - 1], rs[|rs| - 1];
      DictOfStrictlySorted(front, d);
      FindSnoc(front, r, d);
      assert rs == front + [r];
      if d == r.id {
        FindHolds(front, d);
      }
    }
  }

  lemma {:induction false} FindSnoc(rs: seq<KeyRecord>, r: KeyRecord, d: u32)
    ensures Find(rs + [r], d) == if Find(rs, d).Some? then Find(rs, d) else if r.id == d then Some(r.key) else None
  {
    var all := rs + [r];
    if rs == [] {
      assert all[1..] == [];
    } else {
      FindSnoc(rs[1..], r, d);
      assert all[1..] == rs[1..] + [r];
      assert all[0] == rs[0];
    }
  }

  // ---- round trips --------------------------------------------------------------------------------------

  /** Two strictly ascending record lists with the same records are the same list. */
  lemma {:induction false} SameRecords(a: seq<KeyRecord>, b: seq<KeyRecord>)
    requires StrictlySorted(a) && StrictlySorted(b)
    requires forall r :: r in a <==> r in b
    ensures a == b
  {
    BothEmpty(a, b);
    if a != [] {
      var p, q := a[|a| - 1], b[|b| - 1];
      assert p in b && q in a;
      assert p == q;
      var fa, fb := a[..|a| - 1], b[..|b| - 1];
      FrontRecords(a);
      FrontRecords(b);
      forall r
        ensures r in fa <==> r in fb
      {
        assert r in fa <==> r in a && r != p;
        assert r in fb <==> r in b && r != q;
      }
      SameRecords(fa, fb);
      assert a == fa + [p] && b == fb + [q];
    }
  }

  lemma BothEmpty(a: seq<KeyRecord>, b: seq<KeyRecord>)
    requires forall r :: r in a <==> r in b
    ensures a == [] <==> b == []
  {
    if a != [] {
      assert a[0] in b;
    }
    if b != [] {
      assert b[0] in a;
    }
  }

  lemma FrontRecords(a: seq<KeyRecord>)
    requires StrictlySorted(a) && a != []
    ensures forall r :: r in a[..|a| - 1] <==> r in a && r != a[|a| - 1]
  {
    assert a == a[..|a| - 1] + [a[|a| - 1]];
  }

  lemma PackedRecord(rs: seq<KeyRecord>, m: map<u32, Text>, r: KeyRecord)
    requires Packs(rs, m)
    ensures r in rs <==> r.id in m && KeyOf(m[r.id]) == Some(r.key)
  {
    hide KeyOf;
    if r.id in m && KeyOf(m[r.id]) == Some(r.key) {
      var i :| 0 <= i < |rs| && rs[i].id == r.id;
      assert rs[i] == r;
    }
  }

  /** A key map determines its file: whatever order the map is walked in, the records are the same. */
  lemma PackingIsDetermined(a: seq<KeyRecord>, b: seq<KeyRecord>, m: map<u32, Text>)
    requires Packs(a, m) && Packs(b, m)
    ensures a == b
  {
    hide KeyOf, StrictlySorted;
    forall r
      ensures r in a <==> r in b
    {
      PackedRecord(a, m, r);
      PackedRecord(b, m, r);
    }
    PackedIsStrict(a, m);
    PackedIsStrict(b, m);
    SameRecords(a, b);
  }

  lemma PackedIsStrict(rs: seq<KeyRecord>, m: map<u32, Text>)
    requires Packs(rs, m)
    ensures StrictlySorted(rs) && DistinctIds(rs)
  {
    hide KeyOf;
  }

  /** The part of a key map that survives packing: valid keys, trimmed and lower-cased. */
  function CleanMap(m: map<u32, Text>): map<u32, Text> {
    map d | d in m && KeyOf(m[d]).Some? :: Clean(m[d])
  }

  lemma PackedLookup(rs: seq<KeyRecord>, m: map<u32, Text>, d: u32)
    requires Packs(rs, m)
    ensures Find(rs, d).Some? <==> d in CleanMap(m)
    ensures KeyText(rs, d) == if d in CleanMap(m) then CleanMap(m)[d] else []
  {
    hide KeyOf, ToHex, Clean, Find;
    FindHolds(rs, d);
    if Holds(rs, d) {
      var i :| 0 <= i < |rs| && rs[i].id == d;
      assert IsLowerBound(rs, d, i);
      FindAtLowerBound(rs, d, i);
      KeyTextIsClean(m[d]);
    }
  }

  /** Writer to reader: the store takes the packed file (up to its limit) as a strictly ascending index on which
      every lookup answers with the map's valid key, trimmed and lower-cased, and with nothing for other ids. */
  lemma PackThenParse(m: map<u32, Text>, packed: seq<KeyRecord>, index: seq<KeyRecord>, d: u32)
    requires Packs(packed, m) && KeysSized(packed) && |packed| < TWO_32
    requires Accepts(FileOf(packed))
    requires var raw := RawRecords(FileOf(packed), CountOf(FileOf(packed)));
             multiset(index) == multiset(raw) && (DistinctIds(raw) ==> StrictlySorted(index))
    ensures StrictlySorted(index) && index == packed
    ensures KeyText(index, d) == if d in CleanMap(m) then CleanMap(m)[d] else []
  {
    hide KeyOf, StrictlySorted, DistinctIds, Packs, FileOf, CleanMap, KeyText, RawRecords, Accepts;
    PackedFileReads(packed);
    PackedIsStrict(packed, m);
    forall r
      ensures r in index <==> r in packed
    {
      assert r in multiset(index) <==> r in multiset(packed);
    }
    SameRecords(index, packed);
    PackedLookup(packed, m, d);
  }

  /** The tool reads its own file back as exactly the surviving part of the map. */
  lemma PackThenUnpack(m: map<u32, Text>, packed: seq<KeyRecord>)
    requires Packs(packed, m) && KeysSized(packed) && |packed| < TWO_32
    ensures Unpackable(FileOf(packed))
    ensures Dict(RawRecords(FileOf(packed), CountOf(FileOf(packed)))) == CleanMap(m)
  {
    hide KeyOf, StrictlySorted, DistinctIds, Packs, CleanMap, KeyText, RawRecords, Dict, ToBytes, EntryBytes, Load32;
    PackedFileReads(packed);
    PackedIsStrict(packed, m);
    HeaderParts(|packed|, EntryBytes(packed));
    LoadStore32(CURRENT_VERSION);
    forall d: u32
      ensures d in Dict(packed) <==> d in CleanMap(m)
      ensures d in Dict(packed) ==> Dict(packed)[d] == CleanMap(m)[d]
    {
      DictOfStrictlySorted(packed, d);
      PackedLookup(packed, m, d);
    }
    assert Dict(packed).Keys == CleanMap(m).Keys;
  }

  /** Packing what was read back gives the same records, so the same file. */
  lemma RepackIsStable(m: map<u32, Text>, packed: seq<KeyRecord>)
    requires Packs(packed, m)
    ensures Packs(packed, CleanMap(m))
  {
    hide KeyOf, StrictlySorted, Clean;
    forall d | d in CleanMap(m)
      ensures KeyOf(CleanMap(m)[d]) == KeyOf(m[d])
    {
      CleanTwice(m[d]);
    }
  }
}
