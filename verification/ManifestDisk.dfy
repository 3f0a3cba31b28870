/** The request-code file: a header, then records that are appended or, rarely, rewritten as a whole. */
module ManifestDisk {
  import opened Words

  const MAX_CACHE_ENTRIES: nat := 65536
  const MAGIC: u32 := 0x4D524351
  const VERSION: u32 := 1
  const HEADER: nat := 12
  const RECORD: nat := 16

  type Codes = map<u64, u64>

  function HeaderBytes(count: nat): seq<byte> {
    ToBytes(MAGIC, 4) + ToBytes(VERSION, 4) + ToBytes(count, 4)
  }

  function RecordBytes(gid: u64, code: u64): (s: seq<byte>)
    ensures |s| == RECORD
  {
    ToBytes(gid, 8) + ToBytes(code, 8)
  }

  /** Stores a code unless the id has one: the first write wins. */
  function Emplace(m: Codes, gid: u64, code: u64): Codes {
    if gid in m then m else m[gid := code]
  }

  function EmplaceNonZero(m: Codes, gid: u64, code: u64): Codes {
    if gid != 0 && code != 0 then Emplace(m, gid, code) else m
  }

  /** Drains the record stream until it ends or the map is full. */
  function LoadRecords(m: Codes, s: seq<byte>): Codes
    decreases |s|
  {
    if |m| >= MAX_CACHE_ENTRIES || |s| < RECORD then m
    else LoadRecords(EmplaceNonZero(m, Load64(s[..8]), Load64(s[8..16])), s[RECORD..])
  }

  predicate HasHeader(f: seq<byte>) {
    |f| >= HEADER && Load32(f[..4]) == MAGIC && Load32(f[4..8]) == VERSION
  }

  /** Loading a file, or none, into a map. A foreign or truncated header loads nothing. */
  function Load(m: Codes, file: Option<seq<byte>>): Codes {
    match file
    case None => m
    case Some(f) => if HasHeader(f) then LoadRecords(m, f[HEADER..]) else m
  }

  /** A file whose records are all complete. */
  predicate WellFormedFile(f: seq<byte>) {
    HasHeader(f) && (|f| - HEADER) % RECORD == 0
  }

  // ---- enumerations of a map ---------------------------------------------------------------------

  datatype Entry = Entry(gid: u64, code: u64)

  function Records(es: seq<Entry>): seq<byte> {
    if es == [] then [] else Records(es[..|es| - 1]) + RecordBytes(es[|es| - 1].gid, es[|es| - 1].code)
  }

  function MapOf(es: seq<Entry>): Codes {
    if es == [] then map[] else MapOf(es[..|es| - 1])[es[|es| - 1].gid := es[|es| - 1].code]
  }

  /** The entries list the map: each of its ids once. */
  predicate Enumerates(es: seq<Entry>, m: Codes) {
    MapOf(es) == m && |es| == |m|
  }

  /** What writing one code does to the file: append a record, or rewrite everything in some order. */
  predicate Appended(before: Option<seq<byte>>, m: Codes, gid: u64, code: u64, after: Option<seq<byte>>,
                     es: seq<Entry>) {
    if MustRewrite(before) then Enumerates(es, m) && after == Some(HeaderBytes(|m|) + Records(es))
    else after == Some(before.value + RecordBytes(gid, code))
  }

  predicate MustRewrite(file: Option<seq<byte>>) {
    match file
    case None => true
    case Some(f) => |f| == 0 || |f| > MAX_CACHE_ENTRIES * RECORD + HEADER
  }

  // ---- replaying ----------------------------------------------------------------------------------

  /** Replaying a stream and then more is replaying both, provided the first part ends between records. */
  lemma {:induction false} LoadAppend(m: Codes, s: seq<byte>, t: seq<byte>)
    requires |s| % RECORD == 0
    ensures LoadRecords(m, s + t) == LoadRecords(LoadRecords(m, s), t)
    decreases |s|
  {
    if s == [] {
      assert s + t == t;
    } else if |m| < MAX_CACHE_ENTRIES {
      assert (s + t)[..8] == s[..8] && (s + t)[8..16] == s[8..16];
      assert (s + t)[RECORD..] == s[RECORD..] + t;
      LoadAppend(EmplaceNonZero(m, Load64(s[..8]), Load64(s[8..16])), s[RECORD..], t);
    }
  }

  /** Replaying one record. */
  lemma LoadOne(m: Codes, gid: u64, code: u64)
    ensures LoadRecords(m, RecordBytes(gid, code)) ==
            if |m| >= MAX_CACHE_ENTRIES then m else EmplaceNonZero(m, gid, code)
  {
    hide ToBytes;
    var r := RecordBytes(gid, code);
    LoadStore64(gid);
    LoadStore64(code);
    assert r[..8] == ToBytes(gid, 8) && r[8..16] == ToBytes(code, 8) && r[RECORD..] == [];
  }

  lemma HeaderReads(count: nat, rest: seq<byte>)
    ensures HasHeader(HeaderBytes(count) + rest) && (HeaderBytes(count) + rest)[HEADER..] == rest
    ensures |HeaderBytes(count)| == HEADER
  {
    hide ToBytes;
    LoadStore32(MAGIC);
    LoadStore32(VERSION);
    var f := HeaderBytes(count) + rest;
    assert f[..4] == ToBytes(MAGIC, 4) && f[4..8] == ToBytes(VERSION, 4);
  }

  /** Ids and codes that a stored map may hold. */
  predicate NonZero(m: Codes) {
    forall g :: g in m ==> g != 0 && m[g] != 0
  }

  lemma {:induction false} MapSize(es: seq<Entry>)
    ensures |MapOf(es)| <= |es|
    ensures es != [] && |MapOf(es)| == |es| ==>
              |MapOf(es[..|es| - 1])| == |es| - 1 && es[|es| - 1].gid !in MapOf(es[..|es| - 1])
  {
    if es != [] {
      var front, last := es[..|es| - 1], es[|es| - 1];
      MapSize(front);
      if last.gid in MapOf(front) {
        assert MapOf(es).Keys == MapOf(front).Keys;
        assert |MapOf(es).Keys| == |MapOf(front).Keys|;
      } else {
        assert MapOf(es).Keys == MapOf(front).Keys + {last.gid};
        assert |MapOf(es).Keys| == |MapOf(front).Keys| + 1;
      }
    }
  }

  /** Replaying a rewritten stream gives back the map it was written from. */
  lemma {:induction false} LoadEnumeration(es: seq<Entry>)
    requires |MapOf(es)| == |es| <= MAX_CACHE_ENTRIES && NonZero(MapOf(es))
    ensures LoadRecords(map[], Records(es)) == MapOf(es) && |Records(es)| == RECORD * |es|
  {
    hide RecordBytes, LoadRecords, NonZero, MapOf, Records, EmplaceNonZero;
    if es == [] {
      LoadNothing();
    } else {
      var front, last := es[..|es| - 1], es[|es| - 1];
      LastEntry(es);
      LoadEnumeration(front);
      LoadAppend(map[], Records(front), RecordBytes(last.gid, last.code));
      LoadOne(MapOf(front), last.gid, last.code);
    }
  }

  lemma LastEntry(es: seq<Entry>)
    requires es != [] && |MapOf(es)| == |es| && NonZero(MapOf(es))
    ensures var front, last := es[..|es| - 1], es[|es| - 1];
            && |MapOf(front)| == |front| && NonZero(MapOf(front))
            && MapOf(es) == EmplaceNonZero(MapOf(front), last.gid, last.code)
            && Records(es) == Records(front) + RecordBytes(last.gid, last.code)
  {
    hide RecordBytes, NonZero;
    MapSize(es);
    FrontNonZero(es);
  }

  lemma LoadNothing()
    ensures LoadRecords(map[], []) == map[] && Records([]) == [] && MapOf([]) == map[]
  {
  }

  lemma FrontNonZero(es: seq<Entry>)
    requires es != [] && |MapOf(es)| == |es| && NonZero(MapOf(es))
    ensures NonZero(MapOf(es[..|es| - 1])) && es[|es| - 1].gid != 0 && es[|es| - 1].code != 0
  {
    MapSize(es);
    var front, m := MapOf(es[..|es| - 1]), MapOf(es);
    assert es[|es| - 1].gid in m;
    forall g | g in front
      ensures g != 0 && front[g] != 0
    {
      assert g in m && m[g] == front[g];
    }
  }

  // ---- memory and file agree over every run -----------------------------------------------------------

  /** The in-memory map and the file. */
  datatype Disk = Disk(codes: Codes, file: Option<seq<byte>>)

  /** Replaying the file yields the in-memory map. */
  predicate Agrees(d: Disk) {
    && Load(map[], d.file) == d.codes
    && NonZero(d.codes) && |d.codes| <= MAX_CACHE_ENTRIES
    && (d.file.Some? && d.file.value != [] ==> WellFormedFile(d.file.value))
  }

  /** One store: zero ids and codes are ignored, the map keeps the first code, the file gets the new one. */
  ghost predicate StoreStep(d: Disk, gid: u64, code: u64, e: Disk) {
    if gid == 0 || code == 0 then e == d
    else
      && e.codes == Emplace(d.codes, gid, code)
      && exists es :: Appended(d.file, e.codes, gid, code, e.file, es)
  }

  lemma EmplaceSize(m: Codes, gid: u64, code: u64)
    ensures |Emplace(m, gid, code)| == if gid in m then |m| else |m| + 1
  {
    if gid !in m {
      assert m[gid := code].Keys == m.Keys + {gid};
      assert |m[gid := code].Keys| == |m.Keys| + 1;
    }
  }

  lemma RewriteAgrees(m: Codes, es: seq<Entry>)
    requires Enumerates(es, m) && NonZero(m) && |m| <= MAX_CACHE_ENTRIES
    ensures Agrees(Disk(m, Some(HeaderBytes(|m|) + Records(es))))
  {
    hide HeaderBytes, Records, HasHeader, LoadRecords;
    LoadEnumeration(es);
    HeaderReads(|m|, Records(es));
  }

  lemma AppendedFile(f: seq<byte>, r: seq<byte>)
    requires WellFormedFile(f) && |r| == RECORD
    ensures WellFormedFile(f + r) && (f + r)[HEADER..] == f[HEADER..] + r
  {
    hide Load32;
    assert (f + r)[..4] == f[..4] && (f + r)[4..8] == f[4..8];
    OneRecordMore(|f| - HEADER);
    assert |f + r| - HEADER == |f| - HEADER + RECORD;
  }

  lemma OneRecordMore(n: nat)
    requires n % RECORD == 0
    ensures (n + RECORD) % RECORD == 0
  {
  }

  lemma EmplaceKeepsNonZero(m: Codes, gid: u64, code: u64)
    requires NonZero(m) && gid != 0 && code != 0
    ensures NonZero(Emplace(m, gid, code))
  {
  }

  lemma AppendAgrees(d: Disk, gid: u64, code: u64)
    requires Agrees(d) && d.file.Some? && d.file.value != [] && gid != 0 && code != 0
    requires |Emplace(d.codes, gid, code)| <= MAX_CACHE_ENTRIES
    ensures Agrees(Disk(Emplace(d.codes, gid, code), Some(d.file.value + RecordBytes(gid, code))))
  {
    hide RecordBytes, LoadRecords, NonZero, Emplace;
    var f := d.file.value;
    AppendedFile(f, RecordBytes(gid, code));
    LoadAppend(map[], f[HEADER..], RecordBytes(gid, code));
    LoadOne(d.codes, gid, code);
    EmplaceKeepsNonZero(d.codes, gid, code);
    EmplaceSize(d.codes, gid, code);
    EmplaceAll(d.codes, gid, code);
  }

  lemma EmplaceAll(m: Codes, gid: u64, code: u64)
    ensures gid in m ==> Emplace(m, gid, code) == m
  {
  }

  /** A store keeps memory and file in agreement, whichever branch writes the file. */
  lemma StoreKeepsAgreement(d: Disk, gid: u64, code: u64, e: Disk)
    requires Agrees(d) && StoreStep(d, gid, code, e)
    requires |Emplace(d.codes, gid, code)| <= MAX_CACHE_ENTRIES
    ensures Agrees(e)
  {
    hide Records, RecordBytes, HeaderBytes, Load;
    if gid != 0 && code != 0 {
      var es :| Appended(d.file, e.codes, gid, code, e.file, es);
      if MustRewrite(d.file) {
        RewriteAgrees(e.codes, es);
      } else {
        AppendAgrees(d, gid, code);
      }
    }
  }

  /** Consecutive disks of a run of stores. */
  ghost predicate IsRun(ds: seq<Disk>, stores: seq<Entry>) {
    && |ds| == |stores| + 1
    && forall i :: 0 <= i < |stores| ==> StoreStep(ds[i], stores[i].gid, stores[i].code, ds[i + 1])
  }

  /** The first non-zero code the run stored for an id that had none. */
  function FirstStored(start: Codes, stores: seq<Entry>): Codes {
    if stores == [] then start
    else
      var last := stores[|stores| - 1];
      EmplaceNonZero(FirstStored(start, stores[..|stores| - 1]), last.gid, last.code)
  }

  lemma {:induction false} FirstStoredGrows(start: Codes, stores: seq<Entry>, n: nat)
    requires n <= |stores|
    ensures |FirstStored(start, stores[..n])| <= |FirstStored(start, stores)|
  {
    if n < |stores| {
      var front, last := stores[..|stores| - 1], stores[|stores| - 1];
      FirstStoredGrows(start, front, n);
      assert front[..n] == stores[..n];
      EmplaceSize(FirstStored(start, front), last.gid, last.code);
    } else {
      assert stores[..n] == stores;
    }
  }

  /** On agreeing memory and file, a run of stores that does not overfill the map keeps them in agreement. */
  lemma {:induction false} RunKeepsAgreement(ds: seq<Disk>, stores: seq<Entry>)
    requires IsRun(ds, stores) && Agrees(ds[0])
    requires |FirstStored(ds[0].codes, stores)| <= MAX_CACHE_ENTRIES
    ensures Agrees(ds[|stores|])
    decreases |stores|
  {
    hide Agrees, StoreStep;
    if stores != [] {
      var n := |stores| - 1;
      assert IsRun(ds[..n + 1], stores[..n]);
      FirstStoredGrows(ds[0].codes, stores, n);
      RunKeepsAgreement(ds[..n + 1], stores[..n]);
      RunStoresFirst(ds[..n + 1], stores[..n]);
      var d, e := ds[n], ds[n + 1];
      assert StoreStep(d, stores[n].gid, stores[n].code, e);
      StoredCodes(d, stores[n], e);
      if stores[n].gid != 0 && stores[n].code != 0 {
        StoreKeepsAgreement(d, stores[n].gid, stores[n].code, e);
      }
    }
  }

  /** In memory the first code written for an id is the one kept. */
  lemma {:induction false} RunStoresFirst(ds: seq<Disk>, stores: seq<Entry>)
    requires IsRun(ds, stores)
    ensures ds[|stores|].codes == FirstStored(ds[0].codes, stores)
    decreases |stores|
  {
    hide StoreStep;
    if stores != [] {
      var n := |stores| - 1;
      assert IsRun(ds[..n + 1], stores[..n]);
      RunStoresFirst(ds[..n + 1], stores[..n]);
      assert StoreStep(ds[n], stores[n].gid, stores[n].code, ds[n + 1]);
      StoredCodes(ds[n], stores[n], ds[n + 1]);
    }
  }

  /**
    * After loading a file that is absent, empty or well-formed, any run of stores leaves a file whose replay is
    * exactly the in-memory map, the first code written for an id kept on both sides, if and only if the run
    * does not bring the map above 65536 ids. From the 65537th on the replay lacks some.
    */
  lemma ReplayIsMemory(ds: seq<Disk>, stores: seq<Entry>)
    requires IsRun(ds, stores) && Agrees(ds[0])
    ensures var last := ds[|ds| - 1];
            && last.codes == FirstStored(ds[0].codes, stores)
            && (Load(map[], last.file) == last.codes <==> |FirstStored(ds[0].codes, stores)| <= 65536)
  {
    hide Agrees, StoreStep, IsRun, Load, FirstStored;
    assert |ds| == |stores| + 1 by {
      RunLength(ds, stores);
    }
    RunStoresFirst(ds, stores);
    if |FirstStored(ds[0].codes, stores)| <= MAX_CACHE_ENTRIES {
      RunKeepsAgreement(ds, stores);
      AgreesMeansReplay(ds[|stores|]);
    }
    LoadIsSmall(ds[|stores|].file);
  }

  lemma RunLength(ds: seq<Disk>, stores: seq<Entry>)
    requires IsRun(ds, stores)
    ensures |ds| == |stores| + 1
  {
  }

  lemma LoadIsSmall(file: Option<seq<byte>>)
    ensures NonZero(Load(map[], file)) && |Load(map[], file)| <= MAX_CACHE_ENTRIES
  {
    hide LoadRecords;
    if file.Some? && HasHeader(file.value) {
      LoadedIsSmall(map[], file.value[HEADER..]);
    }
  }

  lemma AgreesMeansReplay(d: Disk)
    ensures Agrees(d) ==> Load(map[], d.file) == d.codes
  {
  }

  lemma StoredCodes(d: Disk, s: Entry, e: Disk)
    requires StoreStep(d, s.gid, s.code, e)
    ensures e.codes == EmplaceNonZero(d.codes, s.gid, s.code)
    ensures s.gid == 0 || s.code == 0 ==> e == d
  {
  }

  /** What loading puts in memory agrees with the file it came from. */
  lemma LoadAgrees(file: Option<seq<byte>>)
    requires file.Some? && file.value != [] ==> WellFormedFile(file.value)
    ensures Agrees(Disk(Load(map[], file), file))
  {
    hide LoadRecords, NonZero;
    LoadIsSmall(file);
  }

  lemma {:induction false} LoadedIsSmall(m: Codes, s: seq<byte>)
    requires NonZero(m) && |m| <= MAX_CACHE_ENTRIES
    ensures NonZero(LoadRecords(m, s)) && |LoadRecords(m, s)| <= MAX_CACHE_ENTRIES
    decreases |s|
  {
    if |m| < MAX_CACHE_ENTRIES && |s| >= RECORD {
      var gid, code := Load64(s[..8]), Load64(s[8..16]);
      EmplaceSize(m, gid, code);
      assert NonZero(EmplaceNonZero(m, gid, code));
      LoadedIsSmall(EmplaceNonZero(m, gid, code), s[RECORD..]);
    }
  }

  // ---- files that are not well-formed ---------------------------------------------------------------------

  /** What follows the last complete record. */
  function Tail(f: seq<byte>): seq<byte>
    requires |f| >= HEADER
  {
    f[|f| - (|f| - HEADER) % RECORD..]
  }

  /** A record appended to the file is read as that record. */
  predicate Aligned(f: seq<byte>, gid: u64, code: u64) {
    HasHeader(f) && (Tail(f) + RecordBytes(gid, code))[..RECORD] == RecordBytes(gid, code)
  }

  /**
    * Storing a new id after loading any file whatsoever: memory and replay agree if and only if the file is
    * rewritten, or it has the right header and the appended record is read as itself in spite of what a torn
    * last record left behind.
    */
  lemma StoreAgreesIff(d: Disk, gid: u64, code: u64, e: Disk)
    requires d.codes == Load(map[], d.file) && |d.codes| < MAX_CACHE_ENTRIES
    requires gid != 0 && code != 0 && gid !in d.codes && StoreStep(d, gid, code, e)
    ensures Load(map[], e.file) == e.codes <==> MustRewrite(d.file) || Aligned(d.file.value, gid, code)
  {
    hide Load, HeaderBytes, Records, RecordBytes, Aligned, NonZero, Enumerates;
    var es :| Appended(d.file, e.codes, gid, code, e.file, es);
    LoadIsSmall(d.file);
    EmplaceSize(d.codes, gid, code);
    if MustRewrite(d.file) {
      EmplaceKeepsNonZero(d.codes, gid, code);
      RewriteAgrees(e.codes, es);
      AgreesMeansReplay(e);
    } else {
      AppendAgreesIff(d, gid, code);
    }
  }

  lemma AppendAgreesIff(d: Disk, gid: u64, code: u64)
    requires d.codes == Load(map[], d.file) && |d.codes| < MAX_CACHE_ENTRIES
    requires gid != 0 && code != 0 && gid !in d.codes && d.file.Some?
    ensures Load(map[], Some(d.file.value + RecordBytes(gid, code))) == d.codes[gid := code] <==>
            Aligned(d.file.value, gid, code)
  {
    hide RecordBytes, LoadRecords, Emplace;
    var f, r := d.file.value, RecordBytes(gid, code);
    assert gid in d.codes[gid := code];
    if |f| < HEADER {
      AppendToShort(f, r);
    } else if !HasHeader(f) {
      assert (f + r)[..4] == f[..4] && (f + r)[4..8] == f[4..8];
    } else {
      AppendToHeader(f, r);
      SameRecord(d.codes, (Tail(f) + r)[..RECORD], gid, code);
    }
  }

  lemma AppendToShort(f: seq<byte>, r: seq<byte>)
    requires |f| < HEADER && |r| == RECORD
    ensures Load(map[], Some(f + r)) == map[]
  {
    hide LoadRecords;
    if HasHeader(f + r) {
      ShortStream(map[], (f + r)[HEADER..]);
    }
  }

  /** Replaying the file with one more record: the bytes behind the last complete record and the new one count. */
  lemma AppendToHeader(f: seq<byte>, r: seq<byte>)
    requires HasHeader(f) && |r| == RECORD && |Load(map[], Some(f))| < MAX_CACHE_ENTRIES
    ensures var s := (Tail(f) + r)[..RECORD];
            Load(map[], Some(f + r)) == EmplaceNonZero(Load(map[], Some(f)), Load64(s[..8]), Load64(s[8..16]))
  {
    hide LoadRecords, EmplaceNonZero, Load64;
    assert (f + r)[..4] == f[..4] && (f + r)[4..8] == f[4..8] && (f + r)[HEADER..] == f[HEADER..] + r;
    var whole := WholePart(f);
    ReplayTail(whole, Tail(f), r);
  }

  lemma WholePart(f: seq<byte>) returns (whole: seq<byte>)
    requires |f| >= HEADER
    ensures f[HEADER..] == whole + Tail(f) && |whole| % RECORD == 0 && |Tail(f)| < RECORD
  {
    WholeRecords(|f| - HEADER);
    whole := f[HEADER..|f| - |Tail(f)|];
  }

  lemma ReplayTail(whole: seq<byte>, tail: seq<byte>, r: seq<byte>)
    requires |whole| % RECORD == 0 && |tail| < RECORD && |r| == RECORD
    requires |LoadRecords(map[], whole + tail)| < MAX_CACHE_ENTRIES
    ensures var s := (tail + r)[..RECORD];
            LoadRecords(map[], whole + tail + r) ==
            EmplaceNonZero(LoadRecords(map[], whole + tail), Load64(s[..8]), Load64(s[8..16]))
  {
    hide LoadRecords, EmplaceNonZero, Load64;
    assert whole + tail + r == whole + (tail + r);
    LoadAppend(map[], whole, tail);
    ShortStream(LoadRecords(map[], whole), tail);
    LoadAppend(map[], whole, tail + r);
    ReadOneRecord(LoadRecords(map[], whole), tail + r);
  }

  lemma WholeRecords(n: nat)
    ensures (n - n % RECORD) % RECORD == 0
  {
  }

  lemma ShortStream(m: Codes, s: seq<byte>)
    requires |s| < RECORD
    ensures LoadRecords(m, s) == m
  {
  }

  lemma ReadOneRecord(m: Codes, s: seq<byte>)
    requires |m| < MAX_CACHE_ENTRIES && RECORD <= |s| < 2 * RECORD
    ensures LoadRecords(m, s) == EmplaceNonZero(m, Load64(s[..RECORD][..8]), Load64(s[..RECORD][8..16]))
  {
    hide Load64, EmplaceNonZero;
    assert s[..RECORD][..8] == s[..8] && s[..RECORD][8..16] == s[8..16];
    ShortStream(EmplaceNonZero(m, Load64(s[..8]), Load64(s[8..16])), s[RECORD..]);
  }

  /** A record adds just this id and code exactly if its bytes are the ones written for them. */
  lemma SameRecord(m: Codes, r: seq<byte>, gid: u64, code: u64)
    requires |r| == RECORD && gid != 0 && code != 0 && gid !in m
    ensures EmplaceNonZero(m, Load64(r[..8]), Load64(r[8..16])) == m[gid := code] <==> r == RecordBytes(gid, code)
  {
    var g, c := Load64(r[..8]), Load64(r[8..16]);
    hide Load64, ToBytes;
    assert r == r[..8] + r[8..16] == RecordBytes(g, c);
    assert RecordBytes(gid, code)[..8] == ToBytes(gid, 8) && RecordBytes(gid, code)[8..16] == ToBytes(code, 8);
    LoadStore64(gid);
    LoadStore64(code);
    var n := EmplaceNonZero(m, g, c);
    if n == m[gid := code] {
      assert gid in n && n[gid] == code;
    }
  }

  /** A single stray byte behind the header hides the next store from the replay. */
  lemma TornFileHidesStore(e: Disk)
    requires StoreStep(Disk(map[], Some(HeaderBytes(0) + [0])), 1, 1, e)
    ensures e.codes == map[1 := 1] && Load(map[], e.file) != e.codes
  {
    hide HeaderBytes, LoadRecords, StoreStep, RecordBytes, MustRewrite, Load, Aligned;
    var f := HeaderBytes(0) + [0];
    HeaderReads(0, [0]);
    StrayByteLoadsNothing(f);
    StoredCodes(Disk(map[], Some(f)), Entry(1, 1), e);
    StoreAgreesIff(Disk(map[], Some(f)), 1, 1, e);
    NotRewritten(f);
    StrayByteShifts(f);
  }

  lemma StrayByteLoadsNothing(f: seq<byte>)
    requires |f| == HEADER + 1
    ensures Load(map[], Some(f)) == map[]
  {
    hide LoadRecords;
    if HasHeader(f) {
      ShortStream(map[], f[HEADER..]);
    }
  }

  lemma StrayByteShifts(f: seq<byte>)
    requires |f| == HEADER + 1 && f[HEADER] == 0
    ensures !Aligned(f, 1, 1)
  {
    hide RecordBytes, HasHeader;
    assert Tail(f) == [0];
    StartsWithOne();
    assert ([0] + RecordBytes(1, 1))[..RECORD][0] == 0;
  }

  lemma NotRewritten(f: seq<byte>)
    requires |f| == HEADER + 1
    ensures !MustRewrite(Some(f))
  {
  }

  lemma StartsWithOne()
    ensures RecordBytes(1, 1)[0] == 1
  {
    assert ToBytes(1, 8)[0] == 1;
  }

  /** A file with a foreign header does not show a store that is appended to it: its replay stays empty. */
  lemma ForeignFileHidesStores(d: Disk, gid: u64, code: u64, e: Disk)
    requires StoreStep(d, gid, code, e) && gid != 0 && code != 0
    requires d.file.Some? && |d.file.value| >= HEADER && !HasHeader(d.file.value) && !MustRewrite(d.file)
    ensures gid in e.codes && Load(map[], e.file) == map[]
  {
    var es :| Appended(d.file, e.codes, gid, code, e.file, es);
    var f, g := d.file.value, e.file.value;
    assert g[..4] == f[..4] && g[4..8] == f[4..8];
  }

  // ---- repair by rewriting ----------------------------------------------------------------------------

  /** A file that must be rewritten agrees with memory after the next store, whatever it held. */
  lemma RewriteRepairs(d: Disk, gid: u64, code: u64, e: Disk)
    requires MustRewrite(d.file) && NonZero(d.codes) && |Emplace(d.codes, gid, code)| <= MAX_CACHE_ENTRIES
    requires gid != 0 && code != 0 && StoreStep(d, gid, code, e)
    ensures Agrees(e)
  {
    hide Agrees, Records, HeaderBytes, RecordBytes, NonZero, MustRewrite, Emplace;
    var es :| Appended(d.file, e.codes, gid, code, e.file, es);
    EmplaceKeepsNonZero(d.codes, gid, code);
    RewriteAgrees(e.codes, es);
  }

  /** How many of the stores are more than nothing. */
  function Effective(stores: seq<Entry>): nat {
    if stores == [] then 0
    else
      var last := stores[|stores| - 1];
      Effective(stores[..|stores| - 1]) + if last.gid != 0 && last.code != 0 then 1 else 0
  }

  /** The file is as long as `n` appended records have made it, and they were appended below the limit. */
  predicate Grown(file: Option<seq<byte>>, n: nat) {
    if n == 0 then true
    else
      && file.Some? && |file.value| > RECORD * n
      && |file.value| <= MAX_CACHE_ENTRIES * RECORD + HEADER + RECORD
  }

  lemma GrowOrRepair(d: Disk, gid: u64, code: u64, e: Disk, n: nat)
    requires Agrees(d) || Grown(d.file, n)
    requires NonZero(d.codes) && |Emplace(d.codes, gid, code)| <= MAX_CACHE_ENTRIES
    requires gid != 0 && code != 0 && StoreStep(d, gid, code, e)
    ensures Agrees(e) || Grown(e.file, n + 1)
  {
    hide Agrees, NonZero, Emplace;
    if MustRewrite(d.file) {
      RewriteRepairs(d, gid, code, e);
    } else if Agrees(d) {
      StoreKeepsAgreement(d, gid, code, e);
    } else {
      AppendGrows(d, gid, code, e);
    }
  }

  lemma AppendGrows(d: Disk, gid: u64, code: u64, e: Disk)
    requires !MustRewrite(d.file) && gid != 0 && code != 0 && StoreStep(d, gid, code, e)
    ensures d.file.Some? && 0 < |d.file.value| <= MAX_CACHE_ENTRIES * RECORD + HEADER
    ensures e.file.Some? && |e.file.value| == |d.file.value| + RECORD
  {
    hide RecordBytes, Emplace;
    var es :| Appended(d.file, e.codes, gid, code, e.file, es);
  }

  lemma {:induction false} RunGrowsOrRepairs(ds: seq<Disk>, stores: seq<Entry>)
    requires IsRun(ds, stores) && NonZero(ds[0].codes)
    requires |FirstStored(ds[0].codes, stores)| <= MAX_CACHE_ENTRIES
    ensures NonZero(ds[|stores|].codes)
    ensures Agrees(ds[|stores|]) || Grown(ds[|stores|].file, Effective(stores))
    decreases |stores|
  {
    hide Agrees, StoreStep, Grown, NonZero, Emplace;
    if stores == [] {
      NothingGrown(ds[0].file);
    } else {
      var n := |stores| - 1;
      var d, s, e := ds[n], stores[n], ds[n + 1];
      assert IsRun(ds[..n + 1], stores[..n]);
      FirstStoredGrows(ds[0].codes, stores, n);
      RunGrowsOrRepairs(ds[..n + 1], stores[..n]);
      RunStoresFirst(ds[..n + 1], stores[..n]);
      assert StoreStep(d, s.gid, s.code, e);
      StoredCodes(d, s, e);
      if s.gid != 0 && s.code != 0 {
        EmplaceKeepsNonZero(d.codes, s.gid, s.code);
        GrowOrRepair(d, s.gid, s.code, e, Effective(stores[..n]));
      }
    }
  }

  lemma NothingGrown(file: Option<seq<byte>>)
    ensures Grown(file, 0)
  {
  }

  /**
    * Whatever file a run starts with, foreign, torn or out of step with memory: after 65538 stores of non-zero ids and
    * codes it was outgrown and rewritten, and replaying it yields the in-memory map, as long as that has room.
    */
  lemma {:induction false} RepairedInTheEnd(ds: seq<Disk>, stores: seq<Entry>)
    requires IsRun(ds, stores) && NonZero(ds[0].codes)
    requires |FirstStored(ds[0].codes, stores)| <= MAX_CACHE_ENTRIES && Effective(stores) >= MAX_CACHE_ENTRIES + 2
    ensures Agrees(ds[|stores|]) && Load(map[], ds[|stores|].file) == ds[|stores|].codes
  {
    hide Agrees, StoreStep, NonZero, IsRun, FirstStored, Effective, Load;
    RunLength(ds, stores);
    RunGrowsOrRepairs(ds, stores);
    AgreesMeansReplay(ds[|stores|]);
  }

  /** Once the file is over the limit, the next store repairs it, and it stays so. */
  lemma {:induction false} OversizedIsRepaired(ds: seq<Disk>, stores: seq<Entry>)
    requires IsRun(ds, stores) && stores != [] && NonZero(ds[0].codes) && MustRewrite(ds[0].file)
    requires stores[0].gid != 0 && stores[0].code != 0
    requires |FirstStored(ds[0].codes, stores)| <= MAX_CACHE_ENTRIES
    ensures Agrees(ds[|stores|])
  {
    hide Agrees, StoreStep, NonZero, MustRewrite, Emplace;
    var d, e := ds[0], ds[1];
    assert StoreStep(d, stores[0].gid, stores[0].code, e);
    FirstStoredGrows(d.codes, stores, 1);
    assert stores[..1] == [stores[0]];
    OneStored(d.codes, stores[0]);
    RewriteRepairs(d, stores[0].gid, stores[0].code, e);
    StoredCodes(d, stores[0], e);
    FirstThenRest(d.codes, stores);
    RunTail(ds, stores);
    RunKeepsAgreement(ds[1..], stores[1..]);
  }

  lemma {:induction false} RunTail(ds: seq<Disk>, stores: seq<Entry>)
    requires IsRun(ds, stores) && stores != []
    ensures IsRun(ds[1..], stores[1..])
  {
    hide StoreStep;
    forall i | 0 <= i < |stores[1..]|
      ensures StoreStep(ds[1..][i], stores[1..][i].gid, stores[1..][i].code, ds[1..][i + 1])
    {
      assert StoreStep(ds[i + 1], stores[i + 1].gid, stores[i + 1].code, ds[i + 2]);
    }
  }

  lemma {:induction false} OneStored(m: Codes, s: Entry)
    ensures FirstStored(m, [s]) == EmplaceNonZero(m, s.gid, s.code)
  {
    hide EmplaceNonZero;
    assert [s][..0] == [];
    assert FirstStored(m, []) == m;
  }

  lemma {:induction false} FirstThenRest(m: Codes, stores: seq<Entry>)
    requires stores != []
    ensures FirstStored(m, stores) == FirstStored(EmplaceNonZero(m, stores[0].gid, stores[0].code), stores[1..])
    decreases |stores|
  {
    hide EmplaceNonZero;
    var front, last := stores[..|stores| - 1], stores[|stores| - 1];
    if front == [] {
      assert stores == [stores[0]];
      OneStored(m, stores[0]);
      assert stores[1..] == [];
    } else {
      FirstThenRest(m, front);
      assert stores[1..][..|stores| - 2] == front[1..] && stores[1..][|stores| - 2] == last;
    }
  }
}
