/** Looking up request codes: a cache of answers, a cache of failures, and a chain of providers. */
module ManifestClient {
  import opened Words
  import opened ManifestDisk

  const CHAIN: nat := 3
  /** Ten minutes, in the clock's nanoseconds. */
  const NEGATIVE_TTL: int := 600_000_000_000

  // ---- one lookup ------------------------------------------------------------------------------

  /** Both caches and the provider that answered last (negative: none yet). */
  datatype Caches = Caches(positive: Codes, negative: map<u64, nat>, loaded: bool, lastGood: int)

  const NO_CACHES := Caches(map[], map[], false, -1)

  /** Loading the file on first use. */
  function Loaded(c: Caches, file: Option<seq<byte>>): Caches {
    if c.loaded then c else c.(positive := Load(c.positive, file), loaded := true)
  }

  predicate Expired(c: Caches, gid: u64, now: nat) {
    gid in c.negative && now - c.negative[gid] >= NEGATIVE_TTL
  }

  predicate HeldOff(c: Caches, gid: u64, now: nat) {
    gid in c.negative && !Expired(c, gid, now)
  }

  function Checked(c: Caches, gid: u64, now: nat): Caches {
    if Expired(c, gid, now) then c.(negative := c.negative - {gid}) else c
  }

  function Stored(c: Caches, gid: u64, code: u64): Caches {
    c.(negative := c.negative - {gid}, positive := Emplace(c.positive, gid, code))
  }

  /** Remembering a failure; a cache over its cap is emptied, the new failure included. */
  function MarkedFailed(c: Caches, gid: u64, now: nat): Caches {
    var grown := if gid in c.negative then c.negative else c.negative[gid := now];
    c.(negative := if |grown| > MAX_CACHE_ENTRIES then map[] else grown)
  }

  function StartOf(c: Caches): nat {
    if 0 <= c.lastGood < CHAIN then c.lastGood else 0
  }

  /** The provider asked at a step of the chain. */
  function Provider(start: nat, step: nat): nat {
    (start + step) % CHAIN
  }

  /** The first `n` providers in rotated order. */
  function Rotation(start: nat, n: nat): seq<nat> {
    if n == 0 then [] else Rotation(start, n - 1) + [Provider(start, n - 1)]
  }

  /** How many providers are asked: up to and including the first that answers. */
  function AskCount(start: nat, answers: nat -> Option<u64>, from: nat): (n: nat)
    ensures n > 0
    decreases CHAIN - from
  {
    if from >= CHAIN then CHAIN
    else if answers(Provider(start, from)).Some? then from + 1
    else AskCount(start, answers, from + 1)
  }

  /** A lookup: for which id, when the failure cache is consulted, when a failure is noted, what providers say. */
  datatype Lookup = Lookup(gid: u64, checkAt: nat, markAt: nat, answers: nat -> Option<u64>)

  /** What a lookup yields: the code, zero for none, and the providers asked. */
  datatype Outcome = Outcome(code: u64, asked: seq<nat>)

  /** The provider whose answer ends the chain, if any. */
  function Winner(c: Caches, l: Lookup): (w: Option<nat>)
    ensures w.Some? ==> l.answers(w.value).Some?
  {
    var last := Provider(StartOf(c), AskCount(StartOf(c), l.answers, 0) - 1);
    if l.answers(last).Some? then Some(last) else None
  }

  /** The state and the outcome of one lookup against caches whose file is loaded. */
  function Fetch(c: Caches, l: Lookup): (Caches, Outcome) {
    if l.gid == 0 then (c, Outcome(0, []))
    else if l.gid in c.positive && c.positive[l.gid] != 0 then (c, Outcome(c.positive[l.gid], []))
    else if HeldOff(c, l.gid, l.checkAt) then (c, Outcome(0, []))
    else
      var d := Checked(c, l.gid, l.checkAt);
      var asked := Rotation(StartOf(c), AskCount(StartOf(c), l.answers, 0));
      match Winner(c, l)
      case Some(i) =>
        var code := l.answers(i).value;
        (StoredIfReal(d, l.gid, code).(lastGood := i), Outcome(code, asked))
      case None => (MarkedFailed(d, l.gid, l.markAt), Outcome(0, asked))
  }

  /** A zero code is not stored; providers never answer with one. */
  function StoredIfReal(c: Caches, gid: u64, code: u64): Caches {
    if gid == 0 || code == 0 then c else Stored(c, gid, code)
  }

  /** A lookup whose id is non-zero first loads the file. */
  function FetchFrom(c: Caches, file: Option<seq<byte>>, l: Lookup): (Caches, Outcome) {
    if l.gid == 0 then (c, Outcome(0, [])) else Fetch(Loaded(c, file), l)
  }

  // ---- the client as the program keeps it --------------------------------------------------------

  /** Header and all records, in whatever order the hash map is walked. */
  method WriteAll(codes: Codes) returns (out: seq<byte>)
    ensures exists es :: Enumerates(es, codes) && out == HeaderBytes(|codes|) + Records(es)
  {
    hide Listing, HeaderBytes, RecordBytes, Records, Enumerates;
    var records: seq<byte> := [];
    var rest := codes;
    ghost var es: seq<Entry> := [];
    ListStart(rest);
    while rest.Keys != {}
      invariant Listing(es, rest, codes) && records == Records(es)
      decreases |rest.Keys|
    {
      var g :| g in rest.Keys;
      ListOne(es, rest, codes, g);
      records := records + RecordBytes(g, rest[g]);
      es := es + [Entry(g, rest[g])];
      rest := rest - {g};
    }
    ListedAll(es, rest, codes);
    out := HeaderBytes(|codes|) + records;
  }

  class Client {
    var positiveCache: map<u64, u64>
    var negativeCache: map<u64, nat>
    var diskLoaded: bool
    var lastGoodCodeSource: int
    var file: Option<seq<byte>>

    function State(): Caches
      reads this
    {
      Caches(positiveCache, negativeCache, diskLoaded, lastGoodCodeSource)
    }

    constructor (file: Option<seq<byte>>)
      ensures State() == NO_CACHES && this.file == file
    {
      positiveCache := map[];
      negativeCache := map[];
      diskLoaded := false;
      lastGoodCodeSource := -1;
      this.file := file;
    }

    method LoadDiskCacheLocked()
      modifies this
      ensures State() == Loaded(old(State()), file) && file == old(file)
    {
      hide LoadRecords, Load64, Load32;
      if diskLoaded {
        return;
      }
      diskLoaded := true;
      if file == None {
        return;
      }
      var f := file.value;
      if |f| < HEADER || Load32(f[..4]) != MAGIC || Load32(f[4..8]) != VERSION {
        return;
      }
      var at := HEADER;
      ghost var before := positiveCache;
      while |f| - at >= RECORD && |positiveCache| < MAX_CACHE_ENTRIES
        invariant HEADER <= at <= |f|
        invariant LoadRecords(before, f[HEADER..]) == LoadRecords(positiveCache, f[at..])
        invariant diskLoaded && file == old(file) && negativeCache == old(negativeCache)
        invariant lastGoodCodeSource == old(lastGoodCodeSource)
        decreases |f| - at
      {
        var gid := Load64(f[at..at + 8]);
        var code := Load64(f[at + 8..at + 16]);
        LoadStep(positiveCache, f, at);
        at := at + RECORD;
        if gid != 0 && code != 0 {
          if gid !in positiveCache {
            positiveCache := positiveCache[gid := code];
          }
        }
      }
      LoadStops(positiveCache, f[at..]);
    }

    /** Writes one code to the file: a record at the end, or the whole map when the file must be rewritten. */
    method AppendDiskCache(gid: u64, code: u64)
      modifies this`file
      ensures exists es :: Appended(old(file), positiveCache, gid, code, file, es)
    {
      hide HeaderBytes, RecordBytes, Records, Enumerates;
      var rewrite := file == None || |file.value| == 0 || |file.value| > MAX_CACHE_ENTRIES * RECORD + HEADER;
      if rewrite {
        var out := WriteAll(positiveCache);
        ghost var es :| Enumerates(es, positiveCache) && out == HeaderBytes(|positiveCache|) + Records(es);
        file := Some(out);
        assert Appended(old(file), positiveCache, gid, code, file, es);
      } else {
        file := Some(file.value + RecordBytes(gid, code));
        assert Appended(old(file), positiveCache, gid, code, file, []);
      }
    }

    method StoreRequestCode(gid: u64, code: u64)
      modifies this
      ensures State() == StoredIfReal(old(State()), gid, code)
      ensures StoreStep(Disk(old(positiveCache), old(file)), gid, code, Disk(positiveCache, file))
    {
      if gid == 0 || code == 0 {
        return;
      }
      negativeCache := negativeCache - {gid};
      if gid !in positiveCache {
        positiveCache := positiveCache[gid := code];
      }
      AppendDiskCache(gid, code);
    }

    method MarkRequestCodeFailed(gid: u64, now: nat)
      modifies this
      ensures State() == MarkedFailed(old(State()), gid, now) && file == old(file)
    {
      if gid !in negativeCache {
        negativeCache := negativeCache[gid := now];
      }
      if |negativeCache| > MAX_CACHE_ENTRIES {
        negativeCache := map[];
      }
    }

    method GetCachedRequestCode(gid: u64) returns (code: u64)
      modifies this
      ensures State() == Loaded(old(State()), file) && file == old(file)
      ensures code == if gid in positiveCache then positiveCache[gid] else 0
    {
      LoadDiskCacheLocked();
      code := if gid in positiveCache then positiveCache[gid] else 0;
    }

    method IsNegativeCached(gid: u64, now: nat) returns (held: bool)
      modifies this
      ensures State() == Checked(old(State()), gid, now) && file == old(file)
      ensures held == HeldOff(old(State()), gid, now)
    {
      if gid !in negativeCache {
        return false;
      }
      if now - negativeCache[gid] >= NEGATIVE_TTL {
        negativeCache := negativeCache - {gid};
        return false;
      }
      return true;
    }

    /** Looks a code up; `asked` lists the providers queried, in order. */
    method FetchManifestRequestCode(l: Lookup) returns (outcome: Outcome)
      modifies this
      ensures FetchFrom(old(State()), old(file), l) == (State(), outcome)
      ensures l.gid == 0 ==> file == old(file)
      ensures var d := Disk(Loaded(old(State()), old(file)).positive, old(file));
              l.gid != 0 ==> Disk(positiveCache, file) == d
                             || exists code :: StoreStep(d, l.gid, code, Disk(positiveCache, file))
    {
      hide StoreStep, Load, MarkedFailed, StoredIfReal, Rotation, AskCount;
      if l.gid == 0 {
        return Outcome(0, []);
      }
      var cached := GetCachedRequestCode(l.gid);
      ghost var c := State();
      if cached != 0 {
        return Outcome(cached, []);
      }
      var held := IsNegativeCached(l.gid, l.checkAt);
      if held {
        return Outcome(0, []);
      }
      var start := 0;
      if lastGoodCodeSource >= 0 && lastGoodCodeSource < CHAIN {
        start := lastGoodCodeSource;
      }
      var asked: seq<nat> := [];
      var step := 0;
      AskStep(start, l.answers, CHAIN);
      while step < CHAIN
        invariant step <= CHAIN && asked == Rotation(start, step)
        invariant AskCount(start, l.answers, 0) == AskCount(start, l.answers, step)
        invariant State() == Checked(c, l.gid, l.checkAt) && file == old(file)
        invariant step > 0 ==> l.answers(Provider(start, step - 1)) == None
      {
        AskStep(start, l.answers, step);
        var index := (start + step) % CHAIN;
        asked := asked + [index];
        var r := l.answers(index);
        if r == None {
          step := step + 1;
          continue;
        }
        StoreRequestCode(l.gid, r.value);
        lastGoodCodeSource := index;
        return Outcome(r.value, asked);
      }
      MarkKeepsCodes(State(), l.gid, l.markAt);
      MarkRequestCodeFailed(l.gid, l.markAt);
      return Outcome(0, asked);
    }
  }

  lemma MarkKeepsCodes(c: Caches, gid: u64, now: nat)
    ensures MarkedFailed(c, gid, now).positive == c.positive
  {
  }

  lemma AskStep(start: nat, answers: nat -> Option<u64>, step: nat)
    ensures Rotation(start, 0) == []
    ensures Rotation(start, step + 1) == Rotation(start, step) + [Provider(start, step)]
    ensures AskCount(start, answers, step) ==
            if step >= CHAIN then CHAIN
            else if answers(Provider(start, step)).Some? then step + 1
            else AskCount(start, answers, step + 1)
  {
  }

  // ---- listing a map ----------------------------------------------------------------------------------

  /** The entries taken so far and the map of those still to take. */
  ghost predicate Listing(es: seq<Entry>, rest: Codes, all: Codes) {
    && MapOf(es) == all - rest.Keys && |MapOf(es)| == |es|
    && rest == all - MapOf(es).Keys && rest.Keys <= all.Keys
  }

  lemma ListStart(all: Codes)
    ensures Listing([], all, all) && Records([]) == []
  {
  }

  lemma LoadStep(m: Codes, f: seq<byte>, at: nat)
    requires at + RECORD <= |f| && |m| < MAX_CACHE_ENTRIES
    ensures LoadRecords(m, f[at..]) ==
            LoadRecords(EmplaceNonZero(m, Load64(f[at..at + 8]), Load64(f[at + 8..at + 16])), f[at + RECORD..])
  {
    hide Load64, EmplaceNonZero;
    assert f[at..][..8] == f[at..at + 8] && f[at..][8..16] == f[at + 8..at + 16];
    assert f[at..][RECORD..] == f[at + RECORD..];
  }

  lemma LoadStops(m: Codes, s: seq<byte>)
    requires |m| >= MAX_CACHE_ENTRIES || |s| < RECORD
    ensures LoadRecords(m, s) == m
  {
  }

  lemma ListOne(es: seq<Entry>, rest: Codes, all: Codes, g: u64)
    requires Listing(es, rest, all) && g in rest
    ensures Listing(es + [Entry(g, rest[g])], rest - {g}, all)
    ensures Records(es + [Entry(g, rest[g])]) == Records(es) + RecordBytes(g, rest[g])
  {
    hide RecordBytes;
    var more := es + [Entry(g, rest[g])];
    assert more[..|more| - 1] == es;
    assert MapOf(more) == MapOf(es)[g := rest[g]];
    assert MapOf(more).Keys == MapOf(es).Keys + {g};
    assert |MapOf(more).Keys| == |MapOf(es).Keys| + 1;
  }

  lemma ListedAll(es: seq<Entry>, rest: Codes, all: Codes)
    requires Listing(es, rest, all) && rest.Keys == {}
    ensures Enumerates(es, all)
  {
  }
}
