/** What any sequential run of lookups keeps and promises. */
module ManifestLaws {
  import opened Words
  import opened ManifestDisk
  import opened ManifestClient

  /**
    * The caches after a run. Only the first lookup with a non-zero id reads the file, and nothing is stored
    * before it, so one file value serves the whole run.
    */
  function Run(file: Option<seq<byte>>, ls: seq<Lookup>): Caches {
    if ls == [] then NO_CACHES else FetchFrom(Run(file, ls[..|ls| - 1]), file, ls[|ls| - 1]).0
  }

  // ---- the two caches never hold the same id -------------------------------------------------------

  predicate Disjoint(c: Caches) {
    && NonZero(c.positive)
    && (forall g :: g in c.negative ==> g !in c.positive)
    && (!c.loaded ==> c.positive == map[] && c.negative == map[])
  }

  lemma LoadKeepsDisjoint(c: Caches, file: Option<seq<byte>>)
    requires Disjoint(c)
    ensures Disjoint(Loaded(c, file)) && Loaded(c, file).loaded
  {
    if !c.loaded {
      LoadIsNonZero(file);
    }
  }

  lemma LoadIsNonZero(file: Option<seq<byte>>)
    ensures NonZero(Load(map[], file))
  {
    if file.Some? && HasHeader(file.value) {
      hide LoadRecords, HasHeader;
      LoadedIsSmall(map[], file.value[HEADER..]);
    }
  }

  lemma StoreKeepsDisjoint(c: Caches, gid: u64, code: u64, i: int)
    requires Disjoint(c) && c.loaded
    ensures Disjoint(StoredIfReal(c, gid, code).(lastGood := i)) && StoredIfReal(c, gid, code).loaded
  {
    if gid != 0 && code != 0 {
      EmplaceKeepsNonZero(c.positive, gid, code);
    }
  }

  lemma MarkKeepsDisjoint(c: Caches, gid: u64, now: nat)
    requires Disjoint(c) && c.loaded && gid !in c.positive
    ensures Disjoint(MarkedFailed(c, gid, now)) && MarkedFailed(c, gid, now).loaded
  {
    hide NonZero;
  }

  lemma CheckKeepsDisjoint(c: Caches, gid: u64, now: nat)
    requires Disjoint(c) && c.loaded
    ensures Disjoint(Checked(c, gid, now)) && Checked(c, gid, now).loaded
  {
    hide NonZero;
  }

  lemma UnknownIsAbsent(c: Caches, gid: u64)
    requires Disjoint(c) && !(gid in c.positive && c.positive[gid] != 0)
    ensures gid !in c.positive
  {
  }

  lemma FetchKeepsDisjoint(c: Caches, l: Lookup)
    requires Disjoint(c) && c.loaded
    ensures Disjoint(Fetch(c, l).0) && Fetch(c, l).0.loaded
  {
    hide AskCount, Rotation, Winner, Disjoint, StoredIfReal, MarkedFailed;
    if GoesUpstream(c, l) {
      CheckKeepsDisjoint(c, l.gid, l.checkAt);
      UnknownIsAbsent(c, l.gid);
      var d := Checked(c, l.gid, l.checkAt);
      match Winner(c, l)
      case Some(i) => StoreKeepsDisjoint(d, l.gid, l.answers(i).value, i);
      case None => MarkKeepsDisjoint(d, l.gid, l.markAt);
    }
  }

  /** In every run a known code and a remembered failure exclude each other. */
  lemma {:induction false} CachesStayDisjoint(file: Option<seq<byte>>, ls: seq<Lookup>)
    ensures Disjoint(Run(file, ls))
  {
    if ls != [] {
      var c, l := Run(file, ls[..|ls| - 1]), ls[|ls| - 1];
      CachesStayDisjoint(file, ls[..|ls| - 1]);
      hide Disjoint, Fetch, Loaded, Run;
      RunStep(file, ls);
      if l.gid != 0 {
        LoadKeepsDisjoint(c, file);
        FetchKeepsDisjoint(Loaded(c, file), l);
      }
    }
  }

  lemma RunStep(file: Option<seq<byte>>, ls: seq<Lookup>)
    requires ls != []
    ensures var c, l := Run(file, ls[..|ls| - 1]), ls[|ls| - 1];
            Run(file, ls) == if l.gid == 0 then c else Fetch(Loaded(c, file), l).0
  {
    hide Fetch, Loaded;
  }

  // ---- the provider chain --------------------------------------------------------------------------------

  lemma {:induction false} RotationAt(start: nat, n: nat, i: nat)
    ensures |Rotation(start, n)| == n
    ensures i < n ==> Rotation(start, n)[i] == Provider(start, i)
  {
    if n > 0 {
      RotationAt(start, n - 1, i);
    }
  }

  lemma {:induction false} AskCountStops(start: nat, answers: nat -> Option<u64>, from: nat)
    requires from < CHAIN
    ensures from < AskCount(start, answers, from) <= CHAIN
    ensures forall i :: from <= i < AskCount(start, answers, from) - 1 ==> answers(Provider(start, i)) == None
    ensures AskCount(start, answers, from) < CHAIN ==>
              answers(Provider(start, AskCount(start, answers, from) - 1)).Some?
    decreases CHAIN - from
  {
    if from + 1 < CHAIN && answers(Provider(start, from)) == None {
      AskCountStops(start, answers, from + 1);
    }
  }

  /** A lookup goes upstream exactly when no code is cached and no recent failure holds it off. */
  predicate GoesUpstream(c: Caches, l: Lookup) {
    && l.gid != 0
    && !(l.gid in c.positive && c.positive[l.gid] != 0)
    && !HeldOff(c, l.gid, l.checkAt)
  }

  /**
    * Upstream, each provider is asked at most once, starting from the one that answered last and going
    * round; everyone asked before the last had no answer, and the lookup comes back empty-handed only when
    * nobody had one.
    */
  lemma ProvidersInOrder(c: Caches, l: Lookup)
    requires NonZeroAnswers(l)
    ensures var asked := Fetch(c, l).1.asked;
            var code := Fetch(c, l).1.code;
            && (asked != [] <==> GoesUpstream(c, l))
            && |asked| <= CHAIN
            && (forall i :: 0 <= i < |asked| ==> asked[i] == Provider(StartOf(c), i))
            && (forall i, j :: 0 <= i < j < |asked| ==> asked[i] != asked[j])
            && (forall i :: 0 <= i < |asked| - 1 ==> l.answers(asked[i]) == None)
            && (asked != [] && code != 0 ==> l.answers(asked[|asked| - 1]) == Some(code))
            && (asked != [] && code == 0 ==> |asked| == CHAIN && l.answers(asked[CHAIN - 1]) == None)
  {
    hide AskCount, Rotation;
    if GoesUpstream(c, l) {
      var start, n := StartOf(c), AskCount(StartOf(c), l.answers, 0);
      AskCountStops(start, l.answers, 0);
      RotationAt(start, n, 0);
      forall i | 0 <= i < n
        ensures Rotation(start, n)[i] == Provider(start, i)
      {
        RotationAt(start, n, i);
      }
    }
  }

  /** A provider that answers never answers zero. */
  ghost predicate NonZeroAnswers(l: Lookup) {
    forall i: nat :: l.answers(i) != Some(0)
  }

  // ---- failures hold lookups off ---------------------------------------------------------------------------

  /** The lookup notes a failure and thereby overfills the failure cache, which is then emptied. */
  predicate Overflows(c: Caches, l: Lookup) {
    && GoesUpstream(c, l) && Winner(c, l) == None
    && |Checked(c, l.gid, l.checkAt).negative[l.gid := l.markAt]| > MAX_CACHE_ENTRIES
  }

  /** A code for the id is known, or its failure at time `t` is remembered. */
  predicate Settled(c: Caches, gid: u64, t: nat) {
    (gid in c.positive && c.positive[gid] != 0) || (gid in c.negative && c.negative[gid] == t)
  }

  lemma FailureSettles(c: Caches, l: Lookup)
    requires GoesUpstream(c, l) && Winner(c, l) == None && !Overflows(c, l)
    ensures Settled(Fetch(c, l).0, l.gid, l.markAt)
  {
    hide AskCount, Rotation, Winner;
  }

  lemma SettledStays(c: Caches, l: Lookup, gid: u64, t: nat)
    requires Settled(c, gid, t) && !Overflows(c, l)
    requires l.gid == gid ==> l.checkAt < t + NEGATIVE_TTL
    ensures Settled(Fetch(c, l).0, gid, t)
    ensures l.gid == gid ==> Fetch(c, l).1.asked == []
  {
    hide AskCount, Rotation, Winner;
  }

  /** The caches while a run continues from `c`. */
  function Continue(c: Caches, ls: seq<Lookup>): Caches {
    if ls == [] then c else Fetch(Continue(c, ls[..|ls| - 1]), ls[|ls| - 1]).0
  }

  /** The failure cache never overflows along the continuation. */
  ghost predicate NeverOverflows(c: Caches, ls: seq<Lookup>) {
    forall i :: 0 <= i < |ls| ==> !Overflows(Continue(c, ls[..i]), ls[i])
  }

  /** Lookups of the id consult the failure cache less than ten minutes after `t`. */
  predicate Within(ls: seq<Lookup>, gid: u64, t: nat) {
    forall i :: 0 <= i < |ls| && ls[i].gid == gid ==> ls[i].checkAt < t + 600_000_000_000
  }

  lemma {:induction false} SettledThroughout(c: Caches, ls: seq<Lookup>, gid: u64, t: nat)
    requires Settled(c, gid, t) && NeverOverflows(c, ls) && Within(ls, gid, t)
    ensures Settled(Continue(c, ls), gid, t)
  {
    hide Settled, Fetch, Overflows;
    if ls != [] {
      var n := |ls| - 1;
      var front := ls[..n];
      forall i | 0 <= i < n
        ensures !Overflows(Continue(c, front[..i]), front[i])
      {
        assert front[..i] == ls[..i] && front[i] == ls[i];
      }
      assert NeverOverflows(c, front);
      assert Within(front, gid, t);
      SettledThroughout(c, front, gid, t);
      assert !Overflows(Continue(c, ls[..n]), ls[n]);
      SettledStays(Continue(c, front), ls[n], gid, t);
    }
  }

  /**
    * After a lookup failed, no lookup of the same id goes upstream for ten minutes, unless the failure
    * cache overflowed meanwhile.
    */
  lemma NoRetryWithinTtl(c: Caches, failed: Lookup, ls: seq<Lookup>, i: nat)
    requires GoesUpstream(c, failed) && Winner(c, failed) == None && !Overflows(c, failed)
    requires var d := Fetch(c, failed).0;
             NeverOverflows(d, ls) && Within(ls, failed.gid, failed.markAt)
    requires i < |ls| && ls[i].gid == failed.gid
    ensures Fetch(Continue(Fetch(c, failed).0, ls[..i]), ls[i]).1.asked == []
  {
    hide Settled, Fetch, Overflows, GoesUpstream, Winner, Continue;
    var d := Fetch(c, failed).0;
    FailureSettles(c, failed);
    var front := ls[..i];
    forall j | 0 <= j < |front|
      ensures !Overflows(Continue(d, front[..j]), front[j])
    {
      assert front[..j] == ls[..j] && front[j] == ls[j];
    }
    SettledThroughout(d, front, failed.gid, failed.markAt);
    assert !Overflows(Continue(d, ls[..i]), ls[i]);
    SettledStays(Continue(d, front), ls[i], failed.gid, failed.markAt);
  }

  /** No code for the id is known, and its failure at time `t` is remembered. */
  predicate Failed(c: Caches, gid: u64, t: nat) {
    !(gid in c.positive && c.positive[gid] != 0) && gid in c.negative && c.negative[gid] == t
  }

  lemma FailureIsNoted(c: Caches, l: Lookup)
    requires GoesUpstream(c, l) && Winner(c, l) == None && !Overflows(c, l)
    ensures Failed(Fetch(c, l).0, l.gid, l.markAt)
  {
    hide AskCount, Rotation, Winner;
  }

  /** Lookups of other ids neither find a code for the id nor forget its failure. */
  lemma OthersLeaveFailure(c: Caches, l: Lookup, gid: u64, t: nat)
    requires Failed(c, gid, t) && !Overflows(c, l) && l.gid != gid
    ensures Failed(Fetch(c, l).0, gid, t)
  {
    hide AskCount, Rotation, Winner;
  }

  lemma {:induction false} FailedThroughout(c: Caches, ls: seq<Lookup>, gid: u64, t: nat)
    requires Failed(c, gid, t) && NeverOverflows(c, ls)
    requires forall i :: 0 <= i < |ls| ==> ls[i].gid != gid
    ensures Failed(Continue(c, ls), gid, t)
  {
    hide Failed, Fetch, Overflows;
    if ls != [] {
      var n := |ls| - 1;
      var front := ls[..n];
      forall i | 0 <= i < n
        ensures !Overflows(Continue(c, front[..i]), front[i])
      {
        assert front[..i] == ls[..i] && front[i] == ls[i];
      }
      assert NeverOverflows(c, front);
      FailedThroughout(c, front, gid, t);
      assert !Overflows(Continue(c, ls[..n]), ls[n]);
      OthersLeaveFailure(Continue(c, front), ls[n], gid, t);
    }
  }

  /**
    * After a lookup failed and whatever other ids were looked up since, the next lookup of the id goes upstream if
    * and only if the ten minutes are over.
    */
  lemma RetryAfterTtl(c: Caches, failed: Lookup, ls: seq<Lookup>, next: Lookup)
    requires GoesUpstream(c, failed) && Winner(c, failed) == None && !Overflows(c, failed)
    requires NeverOverflows(Fetch(c, failed).0, ls)
    requires next.gid == failed.gid && forall i :: 0 <= i < |ls| ==> ls[i].gid != failed.gid
    ensures GoesUpstream(Continue(Fetch(c, failed).0, ls), next) <==> next.checkAt >= failed.markAt + 600_000_000_000
  {
    hide Fetch, Overflows, Winner, Continue, NeverOverflows;
    FailureIsNoted(c, failed);
    FailedThroughout(Fetch(c, failed).0, ls, failed.gid, failed.markAt);
  }

  // ---- the client's file changes meanwhile ------------------------------------------------------------------

  /** What one lookup of the client promises about its caches and its file. */
  ghost predicate IsClientStep(cs: seq<Caches>, files: seq<Option<seq<byte>>>, ls: seq<Lookup>, i: nat)
    requires |cs| == |files| == |ls| + 1 && i < |ls|
  {
    && cs[i + 1] == FetchFrom(cs[i], files[i], ls[i]).0
    && (ls[i].gid == 0 ==> files[i + 1] == files[i])
  }

  /** Caches and files of a client that starts with nothing loaded. */
  ghost predicate IsClientRun(cs: seq<Caches>, files: seq<Option<seq<byte>>>, ls: seq<Lookup>) {
    && |cs| == |files| == |ls| + 1 && cs[0] == NO_CACHES
    && forall i :: 0 <= i < |ls| ==> IsClientStep(cs, files, ls, i)
  }

  /** The file is read before it first changes: a client's run is the run with the file it started with. */
  lemma {:induction false} ClientRunIsRun(cs: seq<Caches>, files: seq<Option<seq<byte>>>, ls: seq<Lookup>, n: nat)
    requires IsClientRun(cs, files, ls) && n <= |ls|
    ensures cs[n] == Run(files[0], ls[..n])
    ensures cs[n].loaded || files[n] == files[0]
  {
    hide Fetch, Loaded;
    if n > 0 {
      ClientRunIsRun(cs, files, ls, n - 1);
      assert IsClientStep(cs, files, ls, n - 1);
      assert ls[..n][..n - 1] == ls[..n - 1];
      RunStep(files[0], ls[..n]);
      LoadedOnce(cs[n - 1], files[n - 1], files[0], ls[n - 1]);
    }
  }

  lemma LoadedOnce(c: Caches, file: Option<seq<byte>>, first: Option<seq<byte>>, l: Lookup)
    requires c.loaded || file == first
    ensures Loaded(c, file) == Loaded(c, first)
    ensures Fetch(Loaded(c, file), l).0.loaded
  {
    hide AskCount, Rotation, Winner, Load;
  }
}
