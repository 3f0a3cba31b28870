/** What runs of lookups remember: the provider that answered last, the codes found, and at most so many failures. */
module ManifestRuns {
  import opened Words
  import opened ManifestDisk
  import opened ManifestClient
  import opened ManifestLaws

  /** What the lookup after the run `ls` yields. */
  function OutcomeAfter(file: Option<seq<byte>>, ls: seq<Lookup>, l: Lookup): Outcome {
    FetchFrom(Run(file, ls), file, l).1
  }

  // ---- the provider that answered last ---------------------------------------------------------

  /** The provider that answered a lookup, if one was asked and did. */
  function Answerer(l: Lookup, o: Outcome): Option<nat> {
    if o.asked == [] then None
    else
      var last := o.asked[|o.asked| - 1];
      if l.answers(last).Some? then Some(last) else None
  }

  /** Who answered each lookup of a run. */
  function Answerers(file: Option<seq<byte>>, ls: seq<Lookup>): (who: seq<Option<nat>>)
    ensures |who| == |ls|
  {
    if ls == [] then []
    else
      var front, l := ls[..|ls| - 1], ls[|ls| - 1];
      Answerers(file, front) + [Answerer(l, OutcomeAfter(file, front, l))]
  }

  /** The provider that answered last, and the first of the chain before anyone has. */
  function LastAnswerer(who: seq<Option<nat>>): nat {
    match Last(who, (w: Option<nat>) => w.Some?)
    case Some(w) => if w.Some? then w.value else 0
    case None => 0
  }

  /** In every run a lookup asks the providers going round from the one that answered last. */
  lemma RunAsksFromLastAnswerer(file: Option<seq<byte>>, ls: seq<Lookup>, l: Lookup, i: nat)
    requires i < |OutcomeAfter(file, ls, l).asked|
    ensures OutcomeAfter(file, ls, l).asked[i] == (LastAnswerer(Answerers(file, ls)) + i) % 3
  {
    hide Fetch, Run, LastAnswerer, Answerers;
    var c := Run(file, ls);
    LastGoodIsLastAnswerer(file, ls);
    LoadKeepsLastGood(c, file);
    AskedFromStart(Loaded(c, file), l, i);
  }

  lemma LoadKeepsLastGood(c: Caches, file: Option<seq<byte>>)
    ensures Loaded(c, file).lastGood == c.lastGood
  {
    hide Load;
  }

  lemma AskedFromStart(c: Caches, l: Lookup, i: nat)
    requires i < |Fetch(c, l).1.asked|
    ensures Fetch(c, l).1.asked[i] == (StartOf(c) + i) % 3
  {
    hide AskCount, Rotation, Winner, MarkedFailed, StoredIfReal, Checked;
    RotationAt(StartOf(c), AskCount(StartOf(c), l.answers, 0), i);
  }

  lemma {:induction false} LastGoodIsLastAnswerer(file: Option<seq<byte>>, ls: seq<Lookup>)
    ensures StartOf(Run(file, ls)) == LastAnswerer(Answerers(file, ls))
  {
    if ls != [] {
      var front, l := ls[..|ls| - 1], ls[|ls| - 1];
      LastGoodIsLastAnswerer(file, front);
      hide Run, Fetch, Loaded;
      var c := Run(file, front);
      RunStep(file, ls);
      LoadKeepsLastGood(c, file);
      WinnerIsAnswerer(Loaded(c, file), l);
      LastSnoc(Answerers(file, front), Answerer(l, OutcomeAfter(file, front, l)), (w: Option<nat>) => w.Some?);
    }
  }

  /** A lookup starts the next one at the provider that answered it. */
  lemma WinnerIsAnswerer(c: Caches, l: Lookup)
    ensures var (d, o) := Fetch(c, l);
            StartOf(d) == match Answerer(l, o) case Some(w) => w case None => StartOf(c)
  {
    hide AskCount, Rotation;
    var n := AskCount(StartOf(c), l.answers, 0);
    AskCountStops(StartOf(c), l.answers, 0);
    RotationAt(StartOf(c), n, n - 1);
  }

  // ---- codes are remembered -----------------------------------------------------------------------

  predicate Knows(c: Caches, gid: u64, code: u64) {
    c.loaded && gid != 0 && code != 0 && gid in c.positive && c.positive[gid] == code
  }

  lemma FetchKnows(c: Caches, l: Lookup, gid: u64, code: u64)
    requires Knows(c, gid, code)
    ensures Knows(Fetch(c, l).0, gid, code)
    ensures l.gid == gid ==> Fetch(c, l).1 == Outcome(code, [])
  {
    hide AskCount, Rotation, Winner;
  }

  lemma {:induction false} KnownStaysKnown(file: Option<seq<byte>>, ls: seq<Lookup>, more: seq<Lookup>, gid: u64,
                                           code: u64)
    requires Knows(Run(file, ls), gid, code)
    ensures Knows(Run(file, ls + more), gid, code)
    decreases |more|
  {
    hide Knows, Fetch, Run;
    if more == [] {
      assert ls + more == ls;
    } else {
      var front, l := more[..|more| - 1], more[|more| - 1];
      var all := ls + more;
      assert all[..|all| - 1] == ls + front && all[|all| - 1] == l;
      KnownStaysKnown(file, ls, front, gid, code);
      RunStep(file, all);
      KnowingIsLoaded(Run(file, ls + front), file, gid, code);
      FetchKnows(Run(file, ls + front), l, gid, code);
    }
  }

  lemma KnowingIsLoaded(c: Caches, file: Option<seq<byte>>, gid: u64, code: u64)
    requires Knows(c, gid, code)
    ensures Loaded(c, file) == c && gid != 0
  {
  }

  /** A code once found is the answer to every later lookup of the id, and nobody is asked for it again. */
  lemma CodeIsRemembered(file: Option<seq<byte>>, ls: seq<Lookup>, l: Lookup, more: seq<Lookup>, next: Lookup)
    requires OutcomeAfter(file, ls, l).code != 0 && next.gid == l.gid
    ensures OutcomeAfter(file, ls + [l] + more, next) == Outcome(OutcomeAfter(file, ls, l).code, [])
  {
    hide Run, Fetch, Knows, Disjoint;
    var c, code := Run(file, ls), OutcomeAfter(file, ls, l).code;
    var found := ls + [l];
    assert found[..|found| - 1] == ls;
    CachesStayDisjoint(file, ls);
    LoadKeepsDisjoint(c, file);
    FoundIsKnown(Loaded(c, file), l);
    RunStep(file, found);
    KnownStaysKnown(file, found, more, l.gid, code);
    KnowingIsLoaded(Run(file, found + more), file, l.gid, code);
    FetchKnows(Run(file, found + more), next, l.gid, code);
  }

  lemma FoundIsKnown(c: Caches, l: Lookup)
    requires Disjoint(c) && c.loaded && Fetch(c, l).1.code != 0
    ensures Knows(Fetch(c, l).0, l.gid, Fetch(c, l).1.code)
  {
    hide AskCount, Rotation, Winner;
  }

  /** A code in the file is the answer to the first lookup of the id already. */
  lemma FileCodeIsAnswered(file: Option<seq<byte>>, ls: seq<Lookup>, next: Lookup)
    requires next.gid != 0 && next.gid in Load(map[], file)
    ensures OutcomeAfter(file, ls, next) == Outcome(Load(map[], file)[next.gid], [])
  {
    hide Fetch, Load, Run;
    FileCodeIsKnown(file, ls, next.gid);
    var c := Run(file, ls);
    if c.loaded {
      KnowingIsLoaded(c, file, next.gid, Load(map[], file)[next.gid]);
    }
    FetchKnows(Loaded(c, file), next, next.gid, Load(map[], file)[next.gid]);
  }

  lemma {:induction false} FileCodeIsKnown(file: Option<seq<byte>>, ls: seq<Lookup>, gid: u64)
    requires gid != 0 && gid in Load(map[], file)
    ensures Knows(Loaded(Run(file, ls), file), gid, Load(map[], file)[gid])
    ensures !Run(file, ls).loaded ==> Run(file, ls) == NO_CACHES
  {
    hide Load, Fetch, NonZero;
    LoadIsNonZero(file);
    HeldIsNonZero(Load(map[], file), gid);
    if ls != [] {
      var front, l := ls[..|ls| - 1], ls[|ls| - 1];
      FileCodeIsKnown(file, front, gid);
      hide Run;
      RunStep(file, ls);
      FetchKnows(Loaded(Run(file, front), file), l, gid, Load(map[], file)[gid]);
    }
  }

  lemma HeldIsNonZero(m: Codes, gid: u64)
    requires NonZero(m) && gid in m
    ensures m[gid] != 0
  {
  }

  // ---- failures are bounded --------------------------------------------------------------------------

  lemma FetchBoundsFailures(c: Caches, l: Lookup)
    requires |c.negative| <= 65536
    ensures |Fetch(c, l).0.negative| <= 65536
  {
    hide AskCount, Rotation, Winner, Emplace;
    FewerFailures(c.negative, l.gid);
  }

  lemma FewerFailures(m: map<u64, nat>, gid: u64)
    ensures |m - {gid}| <= |m|
    ensures gid in m ==> m - {gid} != m
  {
    assert (m - {gid}).Keys == m.Keys - {gid};
    assert |(m - {gid}).Keys| == |m - {gid}| && |m.Keys| == |m|;
  }

  /** In every run at most 65536 failures are remembered. */
  lemma {:induction false} FailuresAreBounded(file: Option<seq<byte>>, ls: seq<Lookup>)
    ensures |Run(file, ls).negative| <= 65536
  {
    if ls != [] {
      var front, l := ls[..|ls| - 1], ls[|ls| - 1];
      FailuresAreBounded(file, front);
      hide Run, Fetch, Load;
      RunStep(file, ls);
      FetchBoundsFailures(Loaded(Run(file, front), file), l);
    }
  }

  /** The failure that would be one too many makes the client forget them all, so none holds a lookup off any more. */
  lemma OverflowForgets(c: Caches, l: Lookup, next: Lookup)
    requires GoesUpstream(c, l) && Winner(c, l) == None
    requires |Checked(c, l.gid, l.checkAt).negative[l.gid := l.markAt]| > 65536
    ensures Fetch(c, l).0.negative == map[]
    ensures GoesUpstream(Fetch(c, l).0, next) <==>
            next.gid != 0 && !(next.gid in c.positive && c.positive[next.gid] != 0)
  {
    hide AskCount, Rotation, Winner;
  }

  /** Noting a failure again keeps the time of the first one, so its ten minutes are not prolonged. */
  lemma FirstFailureIsKept(c: Caches, gid: u64, now: nat, later: nat)
    requires |MarkedFailed(c, gid, now).negative| <= 65536 && gid in MarkedFailed(c, gid, now).negative
    ensures MarkedFailed(MarkedFailed(c, gid, now), gid, later) == MarkedFailed(c, gid, now)
  {
  }

  /** A lookup finds no winner exactly when none of the three providers answers. */
  lemma NobodyAnswers(c: Caches, l: Lookup)
    ensures Winner(c, l) == None <==> forall i: nat :: i < 3 ==> l.answers(i) == None
  {
    hide AskCount, Rotation;
    var start := StartOf(c);
    AskCountStops(start, l.answers, 0);
    var n := AskCount(start, l.answers, 0);
    if Winner(c, l) == None {
      assert n == CHAIN;
      forall i: nat | i < 3
        ensures l.answers(i) == None
      {
        var step := (i + 3 - start) % 3;
        assert Provider(start, step) == i;
      }
    }
  }

  // ---- which code is kept ------------------------------------------------------------------------------

  /** A store or record that counts for the id. */
  predicate CountsFor(e: Entry, gid: u64) {
    e.gid == gid && gid != 0 && e.code != 0
  }

  predicate IsFirstFor(stores: seq<Entry>, gid: u64, i: int) {
    0 <= i < |stores| && CountsFor(stores[i], gid) && forall j :: 0 <= j < i ==> !CountsFor(stores[j], gid)
  }

  /** Over every run of stores an id keeps the code it had, or else the first one stored for it. */
  lemma {:induction false} FirstCodeIsKept(start: Codes, stores: seq<Entry>, gid: u64)
    ensures var m := FirstStored(start, stores);
            && (gid in start ==> gid in m && m[gid] == start[gid])
            && (gid !in start && gid in m ==> exists i :: IsFirstFor(stores, gid, i) && m[gid] == stores[i].code)
            && (gid !in start && gid !in m ==> forall i :: 0 <= i < |stores| ==> !CountsFor(stores[i], gid))
  {
    if stores != [] {
      var front, e := stores[..|stores| - 1], stores[|stores| - 1];
      FirstCodeIsKept(start, front, gid);
      var m := FirstStored(start, front);
      hide FirstStored;
      assert FirstStored(start, stores) == EmplaceNonZero(m, e.gid, e.code) by { StoredLast(start, stores); }
      if gid !in start && gid in m {
        var i :| IsFirstFor(front, gid, i) && m[gid] == front[i].code;
        assert IsFirstFor(stores, gid, i);
      } else if gid !in start && CountsFor(e, gid) {
        assert IsFirstFor(stores, gid, |stores| - 1);
      }
    }
  }

  lemma StoredLast(start: Codes, stores: seq<Entry>)
    requires stores != []
    ensures var e := stores[|stores| - 1];
            FirstStored(start, stores) == EmplaceNonZero(FirstStored(start, stores[..|stores| - 1]), e.gid, e.code)
  {
  }

  /**
    * A file of complete records, whatever its header counts and in whatever order ids repeat in it, loads the first
    * code recorded for each id, up to 65536 ids.
    */
  lemma FileLoadsFirst(count: nat, es: seq<Entry>)
    requires |FirstStored(map[], es)| <= 65536
    ensures Load(map[], Some(HeaderBytes(count) + Records(es))) == FirstStored(map[], es)
  {
    hide HeaderBytes, Records, LoadRecords, HasHeader, FirstStored;
    HeaderReads(count, Records(es));
    RecordsLoadFirst(es);
  }

  lemma {:induction false} RecordsLoadFirst(es: seq<Entry>)
    requires |FirstStored(map[], es)| <= 65536
    ensures LoadRecords(map[], Records(es)) == FirstStored(map[], es) && |Records(es)| == RECORD * |es|
  {
    hide RecordBytes, LoadRecords, Records, FirstStored, Emplace;
    if es == [] {
      LoadNothing();
      NothingStored();
    } else {
      var front, e := es[..|es| - 1], es[|es| - 1];
      StoredLast(map[], es);
      LastRecord(es);
      var m := FirstStored(map[], front);
      EmplaceSize(m, e.gid, e.code);
      EmplaceAll(m, e.gid, e.code);
      RecordsLoadFirst(front);
      LoadAppend(map[], Records(front), RecordBytes(e.gid, e.code));
      LoadOne(m, e.gid, e.code);
    }
  }

  lemma NothingStored()
    ensures FirstStored(map[], []) == map[]
  {
  }

  lemma LastRecord(es: seq<Entry>)
    requires es != []
    ensures Records(es) == Records(es[..|es| - 1]) + RecordBytes(es[|es| - 1].gid, es[|es| - 1].code)
  {
  }

  /** A store appends sixteen bytes to a file of 1 to 1048588 bytes; it gives any other one room for just the map. */
  lemma StoreWrites(d: Disk, gid: u64, code: u64, e: Disk)
    requires StoreStep(d, gid, code, e) && gid != 0 && code != 0
    ensures e.file.Some?
    ensures if d.file.Some? && 1 <= |d.file.value| <= 1_048_588
            then e.file.value == d.file.value + ToBytes(gid, 8) + ToBytes(code, 8)
            else |e.file.value| == 12 + 16 * |e.codes|
  {
    hide ToBytes, MapOf;
    var es :| Appended(d.file, e.codes, gid, code, e.file, es);
    RecordsLength(es);
    if !MustRewrite(d.file) {
      Reassociate(d.file.value, ToBytes(gid, 8), ToBytes(code, 8));
    }
  }

  lemma {:induction false} RecordsLength(es: seq<Entry>)
    ensures |Records(es)| == 16 * |es|
  {
    hide RecordBytes;
    if es != [] {
      RecordsLength(es[..|es| - 1]);
    }
  }

  /** A file is taken exactly when it starts with these eight bytes and has four more for the count. */
  lemma HeaderIff(f: seq<byte>)
    ensures HasHeader(f) <==> |f| >= 12 && f[..8] == [0x51, 0x43, 0x52, 0x4D, 1, 0, 0, 0]
  {
    hide Load32, ToBytes;
    MagicBytes();
    LoadStore32(MAGIC);
    LoadStore32(VERSION);
    if |f| >= 12 {
      assert f[..8] == f[..4] + f[4..8];
      assert [0x51, 0x43, 0x52, 0x4D, 1, 0, 0, 0][..4] == [0x51, 0x43, 0x52, 0x4D];
      assert [0x51, 0x43, 0x52, 0x4D, 1, 0, 0, 0][4..] == [1, 0, 0, 0];
      if HasHeader(f) {
        assert f[..4] == ToBytes(MAGIC, 4) && f[4..8] == ToBytes(VERSION, 4);
      }
      if f[..8] == [0x51, 0x43, 0x52, 0x4D, 1, 0, 0, 0] {
        assert f[..4] == f[..8][..4] && f[4..8] == f[..8][4..];
      }
    }
  }

  lemma MagicBytes()
    ensures ToBytes(MAGIC, 4) == [0x51, 0x43, 0x52, 0x4D] && ToBytes(VERSION, 4) == [1, 0, 0, 0]
  {
    assert ToBytes(0x4D, 1) == [0x4D];
    assert ToBytes(0x4D52, 2) == [0x52, 0x4D];
    assert ToBytes(0x4D5243, 3) == [0x43, 0x52, 0x4D];
    assert ToBytes(0, 3) == [0, 0, 0] by {
      assert ToBytes(0, 1) == [0];
      assert ToBytes(0, 2) == [0, 0];
    }
  }
}
