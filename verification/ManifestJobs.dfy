/** The tables of requests waiting for a manifest response, bounded by age. */
module ManifestJobs {
  import opened Words

  /** Two minutes, in the clock's nanoseconds. */
  const JOB_TTL: nat := 120_000_000_000

  datatype Job = Job(id: u64, sentAt: nat)

  /** The two maps and the insertion-order queue; a lookup in flight is known by a ticket number. */
  datatype Tables = Tables(instant: map<u64, u64>, futures: map<u64, nat>, order: seq<Job>)

  const NO_JOBS := Tables(map[], map[], [])

  function Ids(order: seq<Job>): set<u64> {
    set i | 0 <= i < |order| :: order[i].id
  }

  predicate IsStale(j: Job, now: nat) {
    now - j.sentAt > JOB_TTL
  }

  /** How many jobs pruning pops: the stale ones in front. */
  function StaleCount(order: seq<Job>, now: nat): (n: nat)
    ensures n <= |order|
  {
    if order == [] || !IsStale(order[0], now) then 0 else 1 + StaleCount(order[1..], now)
  }

  function Prune(s: Tables, now: nat): Tables {
    var n := StaleCount(s.order, now);
    Tables(s.instant - Ids(s.order[..n]), s.futures - Ids(s.order[..n]), s.order[n..])
  }

  function SendInstant(s: Tables, job: u64, code: u64, now: nat): Tables {
    Prune(Tables(s.instant[job := code], s.futures, s.order + [Job(job, now)]), now)
  }

  function SendPending(s: Tables, job: u64, ticket: nat, now: nat): Tables {
    Prune(Tables(s.instant, s.futures[job := ticket], s.order + [Job(job, now)]), now)
  }

  /** The instant code a response finds; zero when there is none. */
  function FoundCode(s: Tables, job: u64): u64 {
    if job in s.instant then s.instant[job] else 0
  }

  /** What a response is answered with, given what waiting for a lookup yields; zero for nothing. */
  function Answer(s: Tables, job: u64, outcome: nat -> Option<u64>): u64 {
    if FoundCode(s, job) != 0 then FoundCode(s, job)
    else if job !in s.futures then 0
    else
      match outcome(s.futures[job])
      case Some(v) => v
      case None => 0
  }

  function Respond(s: Tables, job: u64): Tables {
    if FoundCode(s, job) != 0 then s.(instant := s.instant - {job})
    else Tables(s.instant - {job}, s.futures - {job}, s.order)
  }

  // ---- the tables as the program keeps them ---------------------------------------------

  class ManifestTables {
    var instantCodes: map<u64, u64>
    var futures: map<u64, nat>
    var jobOrder: seq<Job>

    function State(): Tables
      reads this
    {
      Tables(instantCodes, futures, jobOrder)
    }

    constructor ()
      ensures State() == NO_JOBS
    {
      instantCodes := map[];
      futures := map[];
      jobOrder := [];
    }

    method PruneStaleManifestJobs(now: nat)
      modifies this
      ensures State() == Prune(old(State()), now)
    {
      hide StaleCount, Ids;
      ghost var n := 0;
      ghost var all := jobOrder;
      PruneBegin(all, now, instantCodes, futures);
      while jobOrder != [] && now - jobOrder[0].sentAt > JOB_TTL
        invariant n <= |all| && jobOrder == all[n..] && n + StaleCount(jobOrder, now) == StaleCount(all, now)
        invariant instantCodes == old(instantCodes) - Ids(all[..n]) && futures == old(futures) - Ids(all[..n])
        decreases |jobOrder|
      {
        PruneOne(all, n, now, old(instantCodes), old(futures));
        instantCodes := instantCodes - {jobOrder[0].id};
        futures := futures - {jobOrder[0].id};
        jobOrder := jobOrder[1..];
        n := n + 1;
      }
      PruneEnd(jobOrder, now);
    }

    /** A request whose code is already cached. */
    method RememberInstant(job: u64, code: u64, now: nat)
      modifies this
      ensures State() == SendInstant(old(State()), job, code, now)
    {
      instantCodes := instantCodes[job := code];
      jobOrder := jobOrder + [Job(job, now)];
      PruneStaleManifestJobs(now);
    }

    /** A request whose code is being looked up under `ticket`. */
    method RememberPending(job: u64, ticket: nat, now: nat)
      modifies this
      ensures State() == SendPending(old(State()), job, ticket, now)
    {
      futures := futures[job := ticket];
      jobOrder := jobOrder + [Job(job, now)];
      PruneStaleManifestJobs(now);
    }

    /**
      * The code to inject into the response, zero for none. `outcome` is what waiting for a lookup yields:
      * its result, or none when it is not ready in time.
      */
    method HandleManifestResponse(job: u64, outcome: nat -> Option<u64>) returns (code: u64)
      modifies this
      ensures State() == Respond(old(State()), job)
      ensures code == Answer(old(State()), job, outcome)
    {
      code := 0;
      var hasFuture, ticket := false, 0;
      if job in instantCodes {
        code := instantCodes[job];
        instantCodes := instantCodes - {job};
      }
      if code == 0 {
        if job in futures {
          ticket := futures[job];
          futures := futures - {job};
          hasFuture := true;
        }
      }
      if code == 0 && hasFuture {
        match outcome(ticket)
        case Some(v) => code := v;
        case None => return 0;
      }
    }
  }

  lemma PruneBegin(all: seq<Job>, now: nat, instant: map<u64, u64>, futures: map<u64, nat>)
    ensures all[0..] == all && instant - Ids(all[..0]) == instant && futures - Ids(all[..0]) == futures
  {
  }

  lemma PruneOne(all: seq<Job>, n: nat, now: nat, instant: map<u64, u64>, futures: map<u64, nat>)
    requires n < |all| && IsStale(all[n], now)
    ensures all[n..][1..] == all[n + 1..] && StaleCount(all[n..], now) == 1 + StaleCount(all[n + 1..], now)
    ensures instant - Ids(all[..n]) - {all[n].id} == instant - Ids(all[..n + 1])
    ensures futures - Ids(all[..n]) - {all[n].id} == futures - Ids(all[..n + 1])
  {
    hide Ids;
    IdsSnoc(all[..n], all[n]);
    assert all[..n] + [all[n]] == all[..n + 1];
    assert all[n..][1..] == all[n + 1..];
  }

  lemma PruneEnd(rest: seq<Job>, now: nat)
    requires rest == [] || !(now - rest[0].sentAt > JOB_TTL)
    ensures StaleCount(rest, now) == 0
  {
  }

  lemma IdsSnoc(order: seq<Job>, j: Job)
    ensures Ids(order + [j]) == Ids(order) + {j.id}
  {
    var all := order + [j];
    forall id | id in Ids(order) + {j.id}
      ensures id in Ids(all)
    {
      if id == j.id {
        assert all[|order|].id == id;
      } else {
        var i :| 0 <= i < |order| && order[i].id == id;
        assert all[i].id == id;
      }
    }
  }

  // ---- every reachable state ---------------------------------------------------------------

  /** Every key of either map has an entry in the order queue. */
  predicate Tracked(s: Tables) {
    s.instant.Keys <= Ids(s.order) && s.futures.Keys <= Ids(s.order)
  }

  /** Send times do not decrease along the queue and none lies in the future. */
  predicate InTime(order: seq<Job>, now: nat) {
    && (forall i, j :: 0 <= i < j < |order| ==> order[i].sentAt <= order[j].sentAt)
    && (forall i :: 0 <= i < |order| ==> order[i].sentAt <= now)
  }

  datatype Event =
    | Instant(job: u64, code: u64, now: nat)
    | Pending(job: u64, ticket: nat, now: nat)
    | Response(job: u64)

  function Step(s: Tables, e: Event): Tables {
    match e
    case Instant(job, code, now) => SendInstant(s, job, code, now)
    case Pending(job, ticket, now) => SendPending(s, job, ticket, now)
    case Response(job) => Respond(s, job)
  }

  /** The state after a run from empty tables. */
  function Run(es: seq<Event>): Tables {
    if es == [] then NO_JOBS else Step(Run(es[..|es| - 1]), es[|es| - 1])
  }

  lemma IdsSplit(order: seq<Job>, n: nat)
    requires n <= |order|
    ensures Ids(order) == Ids(order[..n]) + Ids(order[n..])
  {
    forall id | id in Ids(order)
      ensures id in Ids(order[..n]) + Ids(order[n..])
    {
      var i :| 0 <= i < |order| && order[i].id == id;
      if i < n {
        assert order[..n][i].id == id;
      } else {
        assert order[n..][i - n].id == id;
      }
    }
    forall id | id in Ids(order[n..])
      ensures id in Ids(order)
    {
      var i :| 0 <= i < |order[n..]| && order[n..][i].id == id;
      assert order[n + i].id == id;
    }
    forall id | id in Ids(order[..n])
      ensures id in Ids(order)
    {
      var i :| 0 <= i < n && order[..n][i].id == id;
      assert order[i].id == id;
    }
  }

  lemma PruneKeepsTracked(s: Tables, now: nat)
    requires Tracked(s)
    ensures Tracked(Prune(s, now))
  {
    hide Ids, StaleCount;
    IdsSplit(s.order, StaleCount(s.order, now));
  }

  /** In every reachable state each pending job has a queue entry, even when job ids repeat. */
  lemma {:induction false} AlwaysTracked(es: seq<Event>)
    ensures Tracked(Run(es))
  {
    if es != [] {
      var s, e := Run(es[..|es| - 1]), es[|es| - 1];
      AlwaysTracked(es[..|es| - 1]);
      hide Ids, Prune, Run;
      match e
      case Instant(job, code, now) =>
        IdsSnoc(s.order, Job(job, now));
        PruneKeepsTracked(Tables(s.instant[job := code], s.futures, s.order + [Job(job, now)]), now);
      case Pending(job, ticket, now) =>
        IdsSnoc(s.order, Job(job, now));
        PruneKeepsTracked(Tables(s.instant, s.futures[job := ticket], s.order + [Job(job, now)]), now);
      case Response(job) =>
    }
  }

  // ---- ages -----------------------------------------------------------------------------------

  /** The clock does not run backwards over the run, and its last send is not after `now`. */
  predicate Clocked(es: seq<Event>, now: nat) {
    if es == [] then true
    else
      var front, last := es[..|es| - 1], es[|es| - 1];
      if last.Response? then Clocked(front, now) else last.now <= now && Clocked(front, last.now)
  }

  /** On a queue in time order, pruning pops exactly the stale jobs. */
  lemma {:induction false} StaleAreInFront(order: seq<Job>, now: nat)
    requires InTime(order, now)
    ensures forall i :: 0 <= i < |order| ==> (IsStale(order[i], now) <==> i < StaleCount(order, now))
  {
    if order != [] {
      var rest := order[1..];
      assert forall i :: 0 <= i < |rest| ==> rest[i] == order[i + 1];
      StaleAreInFront(rest, now);
      forall i | 0 <= i < |order|
        ensures IsStale(order[i], now) <==> i < StaleCount(order, now)
      {
        if i > 0 {
          assert order[i] == rest[i - 1];
        }
      }
    }
  }

  lemma InTimeSnoc(order: seq<Job>, before: nat, now: nat, id: u64)
    requires InTime(order, before) && before <= now
    ensures InTime(order + [Job(id, now)], now)
  {
  }

  lemma InTimeDrop(order: seq<Job>, now: nat, n: nat)
    requires InTime(order, now) && n <= |order|
    ensures InTime(order[n..], now)
  {
  }

  lemma {:induction false} QueueInTime(es: seq<Event>, now: nat)
    requires Clocked(es, now)
    ensures InTime(Run(es).order, now)
  {
    if es != [] {
      var front, e := es[..|es| - 1], es[|es| - 1];
      if e.Response? {
        QueueInTime(front, now);
      } else {
        QueueInTime(front, e.now);
        var id := e.job;
        var grown := Run(front).order + [Job(id, e.now)];
        InTimeSnoc(Run(front).order, e.now, e.now, id);
        InTimeDrop(grown, e.now, StaleCount(grown, e.now));
      }
    }
  }

  /** A job id with a queue entry no older than the time to live. */
  predicate HasFreshEntry(order: seq<Job>, id: u64, now: nat) {
    exists i :: 0 <= i < |order| && order[i].id == id && !IsStale(order[i], now)
  }

  predicate HasStaleEntry(order: seq<Job>, id: u64, now: nat) {
    exists i :: 0 <= i < |order| && order[i].id == id && IsStale(order[i], now)
  }

  /**
    * After every send of a run whose clock is monotone, nothing in the queue is older than the time to
    * live, and so no pending job outlives it.
    */
  lemma NothingStaleAfterSend(es: seq<Event>, id: u64)
    requires es != [] && !es[|es| - 1].Response?
    requires Clocked(es, es[|es| - 1].now)
    ensures var now := es[|es| - 1].now;
            var s := Run(es);
            && (forall i :: 0 <= i < |s.order| ==> !IsStale(s.order[i], now))
            && (id in s.instant || id in s.futures ==> HasFreshEntry(s.order, id, now))
  {
    var front, e := es[..|es| - 1], es[|es| - 1];
    var grown := Run(front).order + [Job(e.job, e.now)];
    QueueInTime(front, e.now);
    InTimeSnoc(Run(front).order, e.now, e.now, e.job);
    StaleAreInFront(grown, e.now);
    AlwaysTracked(es);
    var s := Run(es);
    var n := StaleCount(grown, e.now);
    assert s.order == grown[n..];
    forall i | 0 <= i < |s.order|
      ensures !IsStale(s.order[i], e.now)
    {
      assert s.order[i] == grown[n + i];
    }
    if id in s.instant || id in s.futures {
      assert id in Ids(s.order);
      var i :| 0 <= i < |s.order| && s.order[i].id == id;
    }
  }

  /**
    * Pruning forgets a job exactly when one of its queue entries is stale. So a job id that is used again
    * before its first entry expires loses its newer code together with the older one.
    */
  lemma PruneForgets(s: Tables, now: nat, id: u64)
    requires InTime(s.order, now)
    ensures id in Prune(s, now).instant <==> id in s.instant && !HasStaleEntry(s.order, id, now)
    ensures id in Prune(s, now).futures <==> id in s.futures && !HasStaleEntry(s.order, id, now)
  {
    StaleAreInFront(s.order, now);
    var n := StaleCount(s.order, now);
    if id in Ids(s.order[..n]) {
      var i :| 0 <= i < n && s.order[..n][i].id == id;
      assert s.order[i].id == id && IsStale(s.order[i], now);
    }
    if HasStaleEntry(s.order, id, now) {
      var i :| 0 <= i < |s.order| && s.order[i].id == id && IsStale(s.order[i], now);
      assert s.order[..n][i].id == id;
    }
  }

  /** A sent code is remembered unless an older send under the same id has just expired. */
  lemma SendIsRemembered(s: Tables, job: u64, code: u64, before: nat, now: nat)
    requires InTime(s.order, before) && before <= now
    ensures job in SendInstant(s, job, code, now).instant <==> !HasStaleEntry(s.order, job, now)
    ensures job in SendInstant(s, job, code, now).instant ==> SendInstant(s, job, code, now).instant[job] == code
  {
    hide StaleCount, Ids;
    var grown := Tables(s.instant[job := code], s.futures, s.order + [Job(job, now)]);
    InTimeSnoc(s.order, before, now, job);
    PruneForgets(grown, now, job);
    if HasStaleEntry(s.order, job, now) {
      var i :| 0 <= i < |s.order| && s.order[i].id == job && IsStale(s.order[i], now);
      assert grown.order[i] == s.order[i];
    }
    if HasStaleEntry(grown.order, job, now) {
      var i :| 0 <= i < |grown.order| && grown.order[i].id == job && IsStale(grown.order[i], now);
      assert i < |s.order| && grown.order[i] == s.order[i];
    }
  }

  /** Re-using a job id: the code sent with the second request is dropped at once. */
  lemma ReusedIdIsForgotten(job: u64, code: u64)
    ensures var es := [Instant(job, code, 0), Response(job), Instant(job, code, JOB_TTL + 1)];
            Clocked(es, JOB_TTL + 1) && job !in Run(es).instant
  {
    var two := [Instant(job, code, 0), Response(job)];
    var es := two + [Instant(job, code, JOB_TTL + 1)];
    assert es == [Instant(job, code, 0), Response(job), Instant(job, code, JOB_TTL + 1)];
    assert es[..2] == two;
    SendAndResponse(job, code);
    hide Clocked, SendInstant;
    SendIsRemembered(Run(two), job, code, 0, JOB_TTL + 1);
  }

  lemma SendAndResponse(job: u64, code: u64)
    ensures var two := [Instant(job, code, 0), Response(job)];
            && Clocked(two + [Instant(job, code, JOB_TTL + 1)], JOB_TTL + 1)
            && InTime(Run(two).order, 0) && HasStaleEntry(Run(two).order, job, JOB_TTL + 1)
  {
    var one, two := [Instant(job, code, 0)], [Instant(job, code, 0), Response(job)];
    var es := two + [Instant(job, code, JOB_TTL + 1)];
    assert es[..2] == two && two[..1] == one && one[..0] == [];
    assert Run(one) == SendInstant(NO_JOBS, job, code, 0);
    assert Run(two) == Respond(Run(one), job);
    OneSend(job, code);
    hide SendInstant, Run;
    assert Clocked(one, JOB_TTL + 1) && Clocked(two, JOB_TTL + 1);
    assert Run(two).order[0] == Job(job, 0) && IsStale(Run(two).order[0], JOB_TTL + 1);
  }

  lemma OneSend(job: u64, code: u64)
    ensures SendInstant(NO_JOBS, job, code, 0).order == [Job(job, 0)]
  {
    assert [] + [Job(job, 0)] == [Job(job, 0)];
  }

  // ---- when a stored code is found ----------------------------------------------------------------

  predicate IsSendOf(e: Event, id: u64) {
    !e.Response? && e.job == id
  }

  /** The time of the last send. */
  function LastSend(es: seq<Event>): nat {
    if es == [] then 0
    else if es[|es| - 1].Response? then LastSend(es[..|es| - 1])
    else es[|es| - 1].now
  }

  predicate SentIn(es: seq<Event>, id: u64, at: nat) {
    exists i :: 0 <= i < |es| && IsSendOf(es[i], id) && es[i].now == at
  }

  lemma SentSnoc(es: seq<Event>, e: Event, id: u64, at: nat)
    ensures SentIn(es + [e], id, at) <==> SentIn(es, id, at) || (IsSendOf(e, id) && e.now == at)
  {
    var all := es + [e];
    if SentIn(es, id, at) {
      var i :| 0 <= i < |es| && IsSendOf(es[i], id) && es[i].now == at;
      assert all[i] == es[i];
    }
    if IsSendOf(e, id) && e.now == at {
      assert all[|es|] == e;
    }
  }

  lemma ClockedSnoc(es: seq<Event>, e: Event, now: nat)
    requires Clocked(es + [e], now)
    ensures if e.Response? then Clocked(es, now) else e.now <= now && Clocked(es, e.now)
    ensures LastSend(es + [e]) == if e.Response? then LastSend(es) else e.now
    ensures Run(es + [e]) == Step(Run(es), e)
  {
    hide Step;
    assert (es + [e])[..|es|] == es;
  }

  lemma {:induction false} LastSendInTime(es: seq<Event>, now: nat)
    requires Clocked(es, now)
    ensures LastSend(es) <= now && Clocked(es, LastSend(es))
  {
    if es != [] && es[|es| - 1].Response? {
      LastSendInTime(es[..|es| - 1], now);
    }
  }

  /** Pruning leaves exactly the jobs that are not stale. */
  lemma PruneLeaves(s: Tables, now: nat, j: Job)
    requires InTime(s.order, now)
    ensures j in Prune(s, now).order <==> j in s.order && !IsStale(j, now)
  {
    hide Ids, IsStale, StaleCount, InTime;
    StaleAreInFront(s.order, now);
    LeftFrom(s.order, StaleCount(s.order, now), now, j);
  }

  lemma LeftFrom(order: seq<Job>, n: nat, now: nat, j: Job)
    requires n <= |order| && forall i :: 0 <= i < |order| ==> (IsStale(order[i], now) <==> i < n)
    ensures j in order[n..] <==> j in order && !IsStale(j, now)
  {
    hide IsStale;
    if j in order && !IsStale(j, now) {
      var i :| 0 <= i < |order| && order[i] == j;
      assert order[n..][i - n] == j;
    }
    if j in order[n..] {
      var i :| 0 <= i < |order[n..]| && order[n..][i] == j;
      assert order[n + i] == j;
    }
  }

  /** The queue of a run holds exactly the sends that are not stale at the last one. */
  lemma {:induction false} QueueHolds(es: seq<Event>, now: nat, j: Job)
    requires Clocked(es, now)
    ensures j in Run(es).order <==> SentIn(es, j.id, j.sentAt) && !IsStale(j, LastSend(es))
    decreases es
  {
    if es != [] {
      var front, e := es[..|es| - 1], es[|es| - 1];
      assert es == front + [e];
      hide SentIn, Run, Clocked, LastSend, Prune;
      ClockedSnoc(front, e, now);
      SentSnoc(front, e, j.id, j.sentAt);
      if e.Response? {
        QueueHolds(front, now, j);
      } else {
        QueueHolds(front, e.now, j);
        LastSendInTime(front, e.now);
        QueueInTime(front, e.now);
        SendQueue(Run(front), e, j);
      }
    }
  }

  lemma SendQueue(s: Tables, e: Event, j: Job)
    requires !e.Response? && InTime(s.order, e.now)
    ensures j in Step(s, e).order <==> (j in s.order || j == Job(e.job, e.now)) && !IsStale(j, e.now)
  {
    hide Prune;
    InTimeSnoc(s.order, e.now, e.now, e.job);
    match e
    case Instant(job, code, now) =>
      PruneLeaves(Tables(s.instant[job := code], s.futures, s.order + [Job(job, now)]), now, j);
    case Pending(job, ticket, now) =>
      PruneLeaves(Tables(s.instant, s.futures[job := ticket], s.order + [Job(job, now)]), now, j);
  }

  /**
    * Some send of the id, still queued when the first `n` events were over or made since, is older than two minutes
    * at the last send.
    */
  predicate Outlived(es: seq<Event>, n: nat, id: u64)
    requires n <= |es|
  {
    exists i :: 0 <= i < |es| && IsSendOf(es[i], id) && LastSend(es) - es[i].now > 120_000_000_000
                && (i >= n || LastSend(es[..n]) - es[i].now <= 120_000_000_000)
  }

  /** How one more event changes that: a send outlives what is queued for the id and stale by then. */
  lemma OutlivedSnoc(es: seq<Event>, e: Event, n: nat, id: u64, now: nat)
    requires n <= |es| && Clocked(es + [e], now)
    ensures e.Response? ==> (Outlived(es + [e], n, id) <==> Outlived(es, n, id))
    ensures !e.Response? ==>
              (Outlived(es + [e], n, id) <==> Outlived(es, n, id) || HasStaleEntry(Run(es).order, id, e.now))
  {
    hide Run, Clocked, LastSend, Outlived, HasStaleEntry;
    ClockedSnoc(es, e, now);
    LastSendInTime(es, if e.Response? then now else e.now);
    if Outlived(es, n, id) {
      OutlivedLasts(es, e, n, id);
    }
    if !e.Response? {
      OutlivedBySend(es, e, n, id);
    } else if Outlived(es + [e], n, id) {
      ResponseChangesNothing(es, e, n, id);
    }
  }

  lemma OutlivedLasts(es: seq<Event>, e: Event, n: nat, id: u64)
    requires n <= |es| && Outlived(es, n, id) && LastSend(es) <= LastSend(es + [e])
    ensures Outlived(es + [e], n, id)
  {
    var all := es + [e];
    assert all[..n] == es[..n];
    hide LastSend;
    var i :| 0 <= i < |es| && IsSendOf(es[i], id) && LastSend(es) - es[i].now > JOB_TTL
             && (i >= n || LastSend(es[..n]) - es[i].now <= JOB_TTL);
    assert all[i] == es[i];
  }

  lemma ResponseChangesNothing(es: seq<Event>, e: Event, n: nat, id: u64)
    requires n <= |es| && e.Response? && Outlived(es + [e], n, id) && LastSend(es + [e]) == LastSend(es)
    ensures Outlived(es, n, id)
  {
    var all := es + [e];
    assert all[..n] == es[..n];
    hide LastSend;
    var i :| 0 <= i < |all| && IsSendOf(all[i], id) && LastSend(all) - all[i].now > JOB_TTL
             && (i >= n || LastSend(all[..n]) - all[i].now <= JOB_TTL);
    assert all[i] == es[i];
  }

  lemma OutlivedBySend(es: seq<Event>, e: Event, n: nat, id: u64)
    requires n <= |es| && !e.Response? && Clocked(es, e.now)
    requires LastSend(es + [e]) == e.now
    ensures HasStaleEntry(Run(es).order, id, e.now) ==> Outlived(es + [e], n, id)
    ensures Outlived(es + [e], n, id) ==> Outlived(es, n, id) || HasStaleEntry(Run(es).order, id, e.now)
  {
    hide Run, Clocked, LastSend, HasStaleEntry, Outlived;
    if HasStaleEntry(Run(es).order, id, e.now) {
      StaleIsOutlived(es, e, n, id);
    }
    if Outlived(es + [e], n, id) {
      OutlivedWasStale(es, e, n, id);
    }
  }

  lemma StaleIsOutlived(es: seq<Event>, e: Event, n: nat, id: u64)
    requires n <= |es| && !e.Response? && Clocked(es, e.now) && LastSend(es + [e]) == e.now
    requires HasStaleEntry(Run(es).order, id, e.now)
    ensures Outlived(es + [e], n, id)
  {
    var all := es + [e];
    assert all[..n] == es[..n];
    hide Run, Clocked, LastSend;
    var k :| 0 <= k < |Run(es).order| && Run(es).order[k].id == id && IsStale(Run(es).order[k], e.now);
    var j := Run(es).order[k];
    QueueHolds(es, e.now, j);
    var i :| 0 <= i < |es| && IsSendOf(es[i], id) && es[i].now == j.sentAt;
    PrefixInTime(es, n, e.now);
    assert all[i] == es[i];
  }

  lemma OutlivedWasStale(es: seq<Event>, e: Event, n: nat, id: u64)
    requires n <= |es| && !e.Response? && Clocked(es, e.now) && LastSend(es + [e]) == e.now
    requires Outlived(es + [e], n, id)
    ensures Outlived(es, n, id) || HasStaleEntry(Run(es).order, id, e.now)
  {
    var all := es + [e];
    assert all[..n] == es[..n];
    hide Run, Clocked, LastSend;
    var i :| 0 <= i < |all| && IsSendOf(all[i], id) && LastSend(all) - all[i].now > JOB_TTL
             && (i >= n || LastSend(all[..n]) - all[i].now <= JOB_TTL);
    assert i < |es| && all[i] == es[i];
    if LastSend(es) - es[i].now <= JOB_TTL {
      var j := Job(id, es[i].now);
      QueueHolds(es, e.now, j);
      var k :| 0 <= k < |Run(es).order| && Run(es).order[k] == j;
    }
  }

  lemma {:induction false} PrefixInTime(es: seq<Event>, n: nat, now: nat)
    requires n <= |es| && Clocked(es, now)
    ensures LastSend(es[..n]) <= LastSend(es)
    decreases |es|
  {
    if n == |es| {
      assert es[..n] == es;
    } else {
      var front, e := es[..|es| - 1], es[|es| - 1];
      assert front[..n] == es[..n] && es == front + [e];
      ClockedSnoc(front, e, now);
      PrefixInTime(front, n, if e.Response? then now else e.now);
      LastSendInTime(front, if e.Response? then now else e.now);
    }
  }

  /** Events that neither answer the job nor store another code for it. */
  predicate LeavesAlone(es: seq<Event>, job: u64) {
    forall i :: 0 <= i < |es| ==> es[i] != Response(job) && !(es[i].Instant? && es[i].job == job)
  }

  /**
    * Over every clocked run, a stored code is what the response finds if and only if no send of the id, queued when it
    * was stored or made since, was outlived.
    */
  lemma {:induction false} CodeIsFoundIff(before: seq<Event>, job: u64, code: u64, at: nat, after: seq<Event>, now: nat)
    requires Clocked(before + [Instant(job, code, at)] + after, now) && code != 0 && LeavesAlone(after, job)
    ensures var all := before + [Instant(job, code, at)] + after;
            FoundCode(Run(all), job) == if Outlived(all, |before|, job) then 0 else code
    decreases |after|
  {
    var stored := before + [Instant(job, code, at)];
    if after == [] {
      assert stored + after == stored;
      hide Run, Clocked;
      CodeIsStored(before, job, code, at, now);
    } else {
      var front, e := after[..|after| - 1], after[|after| - 1];
      var es := stored + front;
      assert stored + after == es + [e];
      assert LeavesAlone(front, job);
      hide Run, Clocked, Outlived, Step, HasStaleEntry;
      ClockedSnoc(es, e, now);
      var last := if e.Response? then now else e.now;
      CodeIsFoundIff(before, job, code, at, front, last);
      OutlivedSnoc(es, e, |before|, job, now);
      QueueInTime(es, last);
      OneEventLater(Run(es), e, job);
    }
  }

  lemma CodeIsStored(before: seq<Event>, job: u64, code: u64, at: nat, now: nat)
    requires Clocked(before + [Instant(job, code, at)], now) && code != 0
    ensures var all := before + [Instant(job, code, at)];
            FoundCode(Run(all), job) == if Outlived(all, |before|, job) then 0 else code
  {
    hide Run, Clocked, Outlived, SendInstant, HasStaleEntry;
    ClockedSnoc(before, Instant(job, code, at), now);
    OutlivedSnoc(before, Instant(job, code, at), |before|, job, now);
    QueueInTime(before, at);
    NotOutlivedYet(before, job);
    SendIsRemembered(Run(before), job, code, at, at);
  }

  lemma NotOutlivedYet(es: seq<Event>, id: u64)
    ensures !Outlived(es, |es|, id)
  {
    assert es[..|es|] == es;
  }

  /** One event that leaves the job alone keeps its code unless it is a send that finds a stale entry of the id. */
  lemma OneEventLater(s: Tables, e: Event, job: u64)
    requires e != Response(job) && !(e.Instant? && e.job == job) && (!e.Response? ==> InTime(s.order, e.now))
    ensures FoundCode(Step(s, e), job) ==
            if !e.Response? && HasStaleEntry(s.order, job, e.now) then 0 else FoundCode(s, job)
  {
    hide Prune, HasStaleEntry;
    match e
    case Response(other) =>
    case Instant(other, code, now) =>
      InTimeSnoc(s.order, now, now, other);
      var grown := Tables(s.instant[other := code], s.futures, s.order + [Job(other, now)]);
      PruneForgets(grown, now, job);
      NewIsNotStale(s.order, other, now, job);
      PruneKeepsValues(grown, now, job);
    case Pending(other, ticket, now) =>
      InTimeSnoc(s.order, now, now, other);
      var grown := Tables(s.instant, s.futures[other := ticket], s.order + [Job(other, now)]);
      PruneForgets(grown, now, job);
      NewIsNotStale(s.order, other, now, job);
      PruneKeepsValues(grown, now, job);
  }

  lemma PruneKeepsValues(s: Tables, now: nat, id: u64)
    ensures id in Prune(s, now).instant ==> id in s.instant && Prune(s, now).instant[id] == s.instant[id]
  {
  }

  lemma NewIsNotStale(order: seq<Job>, other: u64, now: nat, id: u64)
    ensures HasStaleEntry(order + [Job(other, now)], id, now) <==> HasStaleEntry(order, id, now)
  {
    var grown := order + [Job(other, now)];
    if HasStaleEntry(order, id, now) {
      var i :| 0 <= i < |order| && order[i].id == id && IsStale(order[i], now);
      assert grown[i] == order[i];
    }
    if HasStaleEntry(grown, id, now) {
      var i :| 0 <= i < |grown| && grown[i].id == id && IsStale(grown[i], now);
      assert i < |order| && grown[i] == order[i];
    }
  }

  // ---- codes are used at most once -------------------------------------------------------------

  /** How often the run injected a stored code for the job. */
  function Uses(es: seq<Event>, job: u64): nat {
    if es == [] then 0
    else
      var front, last := es[..|es| - 1], es[|es| - 1];
      Uses(front, job) + if last == Response(job) && FoundCode(Run(front), job) != 0 then 1 else 0
  }

  /** How often the run stored a code for the job. */
  function Stores(es: seq<Event>, job: u64): nat {
    if es == [] then 0
    else
      var front, last := es[..|es| - 1], es[|es| - 1];
      Stores(front, job) + if last.Instant? && last.job == job then 1 else 0
  }

  /** Over every run a job's stored codes are injected at most as often as they were stored. */
  lemma {:induction false} CodesAreUsedOnce(es: seq<Event>, job: u64)
    ensures Uses(es, job) + (if FoundCode(Run(es), job) != 0 then 1 else 0) <= Stores(es, job)
  {
    if es != [] {
      var front, e := es[..|es| - 1], es[|es| - 1];
      CodesAreUsedOnce(front, job);
      hide Uses, Stores, Run;
      StepCode(Run(front), e, job);
      assert Run(es) == Step(Run(front), e) by { RunStep(es); }
      CountStep(es, job);
    }
  }

  lemma RunStep(es: seq<Event>)
    requires es != []
    ensures Run(es) == Step(Run(es[..|es| - 1]), es[|es| - 1])
  {
  }

  lemma CountStep(es: seq<Event>, job: u64)
    requires es != []
    ensures var front, last := es[..|es| - 1], es[|es| - 1];
            && Uses(es, job) ==
               Uses(front, job) + (if last == Response(job) && FoundCode(Run(front), job) != 0 then 1 else 0)
            && Stores(es, job) == Stores(front, job) + (if last.Instant? && last.job == job then 1 else 0)
  {
    hide Run;
  }

  /** What one step can do to a stored code: keep it, drop it, or store a new one. */
  lemma StepCode(s: Tables, e: Event, job: u64)
    ensures e == Response(job) ==> FoundCode(Step(s, e), job) == 0
    ensures e != Response(job) && !(e.Instant? && e.job == job) ==>
              FoundCode(Step(s, e), job) == 0 || FoundCode(Step(s, e), job) == FoundCode(s, job)
  {
    hide StaleCount, Ids;
  }
}
