/** Requests whose code is still being looked up: when a response finds the lookup, and what it is answered with. */
module LookupLaws {
  import opened Words
  import opened ManifestJobs

  /** The lookup a response finds under the job. */
  function FoundTicket(s: Tables, job: u64): Option<nat> {
    if job in s.futures then Some(s.futures[job]) else None
  }

  /** Events that neither answer the job nor look its code up again. */
  predicate LeavesLookup(es: seq<Event>, job: u64) {
    forall i :: 0 <= i < |es| ==> es[i] != Response(job) && !(es[i].Pending? && es[i].job == job)
  }

  /**
    * Over every clocked run, a lookup is found by the response if and only if no send of the id, queued when the
    * lookup began or made since, was outlived.
    */
  lemma {:induction false} LookupIsFoundIff(before: seq<Event>, job: u64, ticket: nat, at: nat, after: seq<Event>,
                                            now: nat)
    requires Clocked(before + [Pending(job, ticket, at)] + after, now) && LeavesLookup(after, job)
    ensures var all := before + [Pending(job, ticket, at)] + after;
            FoundTicket(Run(all), job) == if Outlived(all, |before|, job) then None else Some(ticket)
    decreases |after|
  {
    var begun := before + [Pending(job, ticket, at)];
    if after == [] {
      assert begun + after == begun;
      hide Run, Clocked;
      LookupBegins(before, job, ticket, at, now);
    } else {
      var front, e := after[..|after| - 1], after[|after| - 1];
      var es := begun + front;
      assert begun + after == es + [e];
      assert LeavesLookup(front, job);
      hide Run, Clocked, Outlived, Step, HasStaleEntry;
      ClockedSnoc(es, e, now);
      var last := if e.Response? then now else e.now;
      LookupIsFoundIff(before, job, ticket, at, front, last);
      OutlivedSnoc(es, e, |before|, job, now);
      QueueInTime(es, last);
      LookupStays(Run(es), e, job);
    }
  }

  lemma LookupBegins(before: seq<Event>, job: u64, ticket: nat, at: nat, now: nat)
    requires Clocked(before + [Pending(job, ticket, at)], now)
    ensures var all := before + [Pending(job, ticket, at)];
            FoundTicket(Run(all), job) == if Outlived(all, |before|, job) then None else Some(ticket)
  {
    hide Run, Clocked, Outlived, HasStaleEntry, Prune;
    ClockedSnoc(before, Pending(job, ticket, at), now);
    OutlivedSnoc(before, Pending(job, ticket, at), |before|, job, now);
    QueueInTime(before, at);
    NotOutlivedYet(before, job);
    var s := Run(before);
    InTimeSnoc(s.order, at, at, job);
    LookupsPruned(Tables(s.instant, s.futures[job := ticket], s.order + [Job(job, at)]), at, job);
    NewIsNotStale(s.order, job, at, job);
  }

  lemma LookupsPruned(s: Tables, now: nat, id: u64)
    requires InTime(s.order, now)
    ensures FoundTicket(Prune(s, now), id) == if HasStaleEntry(s.order, id, now) then None else FoundTicket(s, id)
  {
    hide HasStaleEntry, Ids;
    PruneForgets(s, now, id);
  }

  /** One event that leaves the lookup alone keeps it unless it is a send that finds a stale entry of the id. */
  lemma LookupStays(s: Tables, e: Event, job: u64)
    requires e != Response(job) && !(e.Pending? && e.job == job) && (!e.Response? ==> InTime(s.order, e.now))
    ensures FoundTicket(Step(s, e), job) ==
            if !e.Response? && HasStaleEntry(s.order, job, e.now) then None else FoundTicket(s, job)
  {
    hide Prune, HasStaleEntry;
    match e
    case Response(other) =>
    case Instant(other, code, now) =>
      InTimeSnoc(s.order, now, now, other);
      NewIsNotStale(s.order, other, now, job);
      LookupsPruned(Tables(s.instant[other := code], s.futures, s.order + [Job(other, now)]), now, job);
    case Pending(other, ticket, now) =>
      InTimeSnoc(s.order, now, now, other);
      NewIsNotStale(s.order, other, now, job);
      LookupsPruned(Tables(s.instant, s.futures[other := ticket], s.order + [Job(other, now)]), now, job);
  }

  // ---- the answer to a response ------------------------------------------------------------------

  /**
    * After a run in which a job was looked up and no code was ever stored for it, the response is answered with what
    * the lookup yields if and only if the lookup was not outlived; the next response finds nothing.
    */
  lemma LookupIsAnswered(before: seq<Event>, job: u64, ticket: nat, at: nat, after: seq<Event>, now: nat,
                         outcome: nat -> Option<u64>)
    requires Clocked(before + [Pending(job, ticket, at)] + after, now) && LeavesLookup(after, job)
    requires NeverStored(before + [Pending(job, ticket, at)] + after, job)
    ensures var all := before + [Pending(job, ticket, at)] + after;
            && Answer(Run(all), job, outcome) ==
               (if Outlived(all, |before|, job) || outcome(ticket) == None then 0 else outcome(ticket).value)
            && Answer(Run(all + [Response(job)]), job, outcome) == 0
  {
    hide Run, Clocked, Outlived;
    var all := before + [Pending(job, ticket, at)] + after;
    LookupIsFoundIff(before, job, ticket, at, after, now);
    NothingStored(all, job);
    RunSnoc(all, Response(job));
  }

  predicate NeverStored(es: seq<Event>, job: u64) {
    forall i :: 0 <= i < |es| ==> !(es[i].Instant? && es[i].job == job)
  }

  lemma {:induction false} NothingStored(es: seq<Event>, job: u64)
    requires NeverStored(es, job)
    ensures job !in Run(es).instant
  {
    if es != [] {
      var front, e := es[..|es| - 1], es[|es| - 1];
      assert NeverStored(front, job);
      NothingStored(front, job);
      assert !(e.Instant? && e.job == job);
    }
  }

  lemma RunSnoc(es: seq<Event>, e: Event)
    ensures Run(es + [e]) == Step(Run(es), e)
  {
    hide Step;
    assert (es + [e])[..|es|] == es;
  }

  /** A stored code is answered before any lookup, and the lookup stays for the next response. */
  lemma CodeGoesFirst(before: seq<Event>, job: u64, code: u64, at: nat, after: seq<Event>, now: nat,
                      outcome: nat -> Option<u64>)
    requires Clocked(before + [Instant(job, code, at)] + after, now) && code != 0 && LeavesAlone(after, job)
    requires !Outlived(before + [Instant(job, code, at)] + after, |before|, job)
    ensures var s := Run(before + [Instant(job, code, at)] + after);
            && Answer(s, job, outcome) == code
            && FoundTicket(Run(before + [Instant(job, code, at)] + after + [Response(job)]), job) == FoundTicket(s, job)
  {
    hide Run, Clocked, Outlived;
    CodeIsFoundIff(before, job, code, at, after, now);
    RunSnoc(before + [Instant(job, code, at)] + after, Response(job));
  }

  // ---- lookups are taken at most once ---------------------------------------------------------------

  /** Whether the response takes the lookup `ticket` from the tables. */
  predicate Takes(s: Tables, e: Event, job: u64, ticket: nat) {
    e == Response(job) && FoundCode(s, job) == 0 && FoundTicket(s, job) == Some(ticket)
  }

  function Taken(es: seq<Event>, job: u64, ticket: nat): nat {
    if es == [] then 0
    else
      var front, last := es[..|es| - 1], es[|es| - 1];
      Taken(front, job, ticket) + if Takes(Run(front), last, job, ticket) then 1 else 0
  }

  function Begun(es: seq<Event>, job: u64, ticket: nat): nat {
    if es == [] then 0
    else
      var front, last := es[..|es| - 1], es[|es| - 1];
      Begun(front, job, ticket) + if last.Pending? && last.job == job && last.ticket == ticket then 1 else 0
  }

  /** Over every run a job's lookup is taken at most as often as it was begun. */
  lemma {:induction false} LookupsAreTakenOnce(es: seq<Event>, job: u64, ticket: nat)
    ensures Taken(es, job, ticket) + (if FoundTicket(Run(es), job) == Some(ticket) then 1 else 0) <=
            Begun(es, job, ticket)
  {
    if es != [] {
      var front, e := es[..|es| - 1], es[|es| - 1];
      LookupsAreTakenOnce(front, job, ticket);
      hide Run, Takes;
      StepTicket(Run(front), e, job, ticket);
      RunStep(es);
    }
  }

  lemma StepTicket(s: Tables, e: Event, job: u64, ticket: nat)
    ensures Takes(s, e, job, ticket) ==> FoundTicket(s, job) == Some(ticket) && FoundTicket(Step(s, e), job) == None
    ensures FoundTicket(Step(s, e), job) == Some(ticket) ==>
              FoundTicket(s, job) == Some(ticket)
              || (e.Pending? && e.job == job && e.ticket == ticket)
  {
    hide StaleCount, Ids;
  }
}
