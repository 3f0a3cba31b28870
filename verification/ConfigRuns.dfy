/** Every interleaving of readers, setters and reload threads over the double-buffered configuration. */
module ConfigRuns {
  import opened Words
  import opened ConfigStore

  type Thread = nat

  /** Where a reload thread stands; between the lock and the swap it knows its staging slot. */
  datatype Place = Waiting | Locked | Staging(slot: nat) | Swapped

  /** The store, who holds the reload lock, and where each reload thread stands. */
  datatype World = World(slots: Slots, owner: Option<Thread>, places: map<Thread, Place>) {
    function PlaceOf(t: Thread): Place {
      if t in places then places[t] else Waiting
    }
  }

  /** One atomic step; every one but taking and leaving the reload lock is a method of the store. */
  datatype Step =
    | TakeLock(t: Thread)
    | Begin(t: Thread)
    | Put(t: Thread, r: Record)
    | Swap(t: Thread)
    | LeaveLock(t: Thread)
    | Change(x: Setting)
    | Read

  predicate Enabled(w: World, e: Step) {
    match e
    case TakeLock(t) => w.owner == None && w.PlaceOf(t) == Waiting
    case Begin(t) => w.PlaceOf(t) == Locked
    case Put(t, r) => w.PlaceOf(t).Staging?
    case Swap(t) => w.PlaceOf(t).Staging?
    case LeaveLock(t) => w.PlaceOf(t) == Swapped
    case Change(x) => true
    case Read => true
  }

  function Next(w: World, e: Step): World
    requires Enabled(w, e)
  {
    match e
    case TakeLock(t) => w.(owner := Some(t), places := w.places[t := Locked])
    case Begin(t) =>
      w.(slots := w.slots.Begun(), places := w.places[t := Staging(w.slots.Staging())])
    case Put(t, r) =>
      w.(slots := w.slots.Recorded(w.PlaceOf(t).slot, r))
    case Swap(t) =>
      World(w.slots.Activated(w.PlaceOf(t).slot), w.owner, w.places[t := Swapped])
    case LeaveLock(t) => w.(owner := None, places := w.places[t := Waiting])
    case Change(x) => w.(slots := w.slots.Changed(x))
    case Read => w
  }

  /** After startup parsing: everything recorded is in the active slot, the other is empty. */
  function Start(initial: LuaData): World {
    World(Slots(initial, NO_DATA, 0), None, map[])
  }

  // ---- what readers are promised, from the history alone ----------------------------------------

  /** What the reload in progress has recorded since it began. */
  function Staged(es: seq<Step>): LuaData {
    if es == [] then NO_DATA
    else
      var front, last := es[..|es| - 1], es[|es| - 1];
      match last
      case Begin(t) => NO_DATA
      case Put(t, r) => Write(Staged(front), r)
      case _ => Staged(front)
  }

  /** The last published snapshot with the settings made since. */
  function Published(initial: LuaData, es: seq<Step>): LuaData {
    if es == [] then initial
    else
      var front, last := es[..|es| - 1], es[|es| - 1];
      match last
      case Swap(t) => Staged(front)
      case Change(x) => Set(Published(initial, front), x)
      case _ => Published(initial, front)
  }

  // ---- every reachable world ------------------------------------------------------------------------

  /** Only the lock owner is past waiting. */
  predicate Exclusive(w: World) {
    forall t: Thread :: t in w.places && w.places[t] != Waiting ==> w.owner == Some(t)
  }

  /** The inactive slot holds what the running reload staged, and is empty when none is staging. */
  predicate SlotsMatch(w: World, staged: LuaData, published: LuaData) {
    && w.slots.active < 2
    && w.slots.View() == published
    && (match w.owner
        case None => w.slots.At(1 - w.slots.active) == NO_DATA
        case Some(t) =>
          if w.PlaceOf(t).Staging?
          then w.PlaceOf(t).slot == 1 - w.slots.active && w.slots.At(1 - w.slots.active) == staged
          else w.slots.At(1 - w.slots.active) == NO_DATA)
  }

  ghost predicate Inv(w: World, initial: LuaData, es: seq<Step>) {
    Exclusive(w) && SlotsMatch(w, Staged(es), Published(initial, es))
  }

  /** The world after a run; none when some step was not enabled where it happened. */
  function RunTo(initial: LuaData, es: seq<Step>): Option<World> {
    if es == [] then Some(Start(initial))
    else
      match RunTo(initial, es[..|es| - 1])
      case None => None
      case Some(v) => if Enabled(v, es[|es| - 1]) then Some(Next(v, es[|es| - 1])) else None
  }

  predicate IsRun(w: World, initial: LuaData, es: seq<Step>) {
    RunTo(initial, es) == Some(w)
  }

  lemma StepKeepsExclusive(w: World, e: Step)
    requires Exclusive(w) && Enabled(w, e)
    ensures Exclusive(Next(w, e))
  {
  }

  lemma StepKeepsSlots(w: World, e: Step, staged: LuaData, published: LuaData)
    requires Exclusive(w) && SlotsMatch(w, staged, published) && Enabled(w, e)
    ensures SlotsMatch(Next(w, e),
                       match e case Begin(t) => NO_DATA case Put(t, r) => Write(staged, r) case _ => staged,
                       match e case Swap(t) => staged case Change(x) => Set(published, x) case _ => published)
  {
    hide Write, Set;
  }

  /** The invariant holds after every run. */
  lemma {:induction false} RunsKeepInvariant(w: World, initial: LuaData, es: seq<Step>)
    requires IsRun(w, initial, es)
    ensures Inv(w, initial, es)
    decreases es
  {
    if es != [] {
      var front, e := es[..|es| - 1], es[|es| - 1];
      var v := RunTo(initial, front).value;
      RunsKeepInvariant(v, initial, front);
      hide Exclusive, SlotsMatch, Next, Enabled;
      StepKeepsExclusive(v, e);
      StepKeepsSlots(v, e, Staged(front), Published(initial, front));
    }
  }

  /** In every interleaving a reader sees exactly the last published snapshot with the settings made since. */
  lemma ReadersSeePublished(w: World, initial: LuaData, es: seq<Step>)
    requires IsRun(w, initial, es)
    ensures w.slots.View() == Published(initial, es)
  {
    RunsKeepInvariant(w, initial, es);
  }

  /** Two reload threads never stage at the same time, and staging never touches the slot being read. */
  lemma StagingIsExclusive(w: World, initial: LuaData, es: seq<Step>, t: Thread, u: Thread)
    requires IsRun(w, initial, es) && w.PlaceOf(t).Staging?
    ensures w.PlaceOf(u).Staging? ==> t == u
    ensures w.PlaceOf(t).slot != w.slots.active && w.owner == Some(t)
    ensures w.slots.active < 2 && w.slots.At(w.PlaceOf(t).slot) == Staged(es)
  {
    RunsKeepInvariant(w, initial, es);
  }

  /** Whenever no reload is staging, the inactive slot is empty. */
  lemma InactiveIsEmpty(w: World, initial: LuaData, es: seq<Step>)
    requires IsRun(w, initial, es) && forall t: Thread :: !w.PlaceOf(t).Staging?
    ensures w.slots.active < 2 && w.slots.At(1 - w.slots.active) == NO_DATA
  {
    RunsKeepInvariant(w, initial, es);
    if w.owner.Some? {
      assert !w.PlaceOf(w.owner.value).Staging?;
    }
  }

  /** The view changes in one step: a staged reload is invisible until its swap, and then visible whole. */
  lemma ViewChangesAtSwap(v: World, e: Step, initial: LuaData, es: seq<Step>)
    requires IsRun(v, initial, es) && Enabled(v, e)
    ensures Next(v, e).slots.View() ==
            match e case Swap(t) => Staged(es) case Change(x) => Set(v.slots.View(), x) case _ => v.slots.View()
  {
    RunsKeepInvariant(v, initial, es);
    hide IsRun, Write, Set;
    StepKeepsSlots(v, e, Staged(es), Published(initial, es));
  }

  // ---- how long a setting lasts ---------------------------------------------------------------------

  predicate HasSwap(es: seq<Step>) {
    exists i :: 0 <= i < |es| && es[i].Swap?
  }

  /** Settings never reach a staged reload. */
  lemma {:induction false} StagedIgnoresSettings(before: seq<Step>, x: Setting, after: seq<Step>)
    ensures Staged(before + [Change(x)] + after) == Staged(before + after)
  {
    var all, plain := before + [Change(x)] + after, before + after;
    if after == [] {
      assert all == before + [Change(x)] && plain == before;
      assert all[..|all| - 1] == before;
    } else {
      var front := after[..|after| - 1];
      StagedIgnoresSettings(before, x, front);
      assert all[..|all| - 1] == before + [Change(x)] + front;
      assert plain[..|plain| - 1] == before + front;
      hide Write;
    }
  }

  /** The next swap forgets a setting altogether: afterwards the view is as if it had never been made. */
  lemma {:induction false} SwapForgetsSettings(initial: LuaData, before: seq<Step>, x: Setting, after: seq<Step>)
    requires HasSwap(after)
    ensures Published(initial, before + [Change(x)] + after) == Published(initial, before + after)
  {
    var all, plain := before + [Change(x)] + after, before + after;
    var front, last := after[..|after| - 1], after[|after| - 1];
    assert all[..|all| - 1] == before + [Change(x)] + front;
    assert plain[..|plain| - 1] == before + front;
    if last.Swap? {
      StagedIgnoresSettings(before, x, front);
    } else {
      var i :| 0 <= i < |after| && after[i].Swap?;
      assert front[i] == after[i];
      SwapForgetsSettings(initial, before, x, front);
    }
    hide Set, Staged;
  }

  predicate ChangesTokenOf(e: Step, id: u32) {
    e.Change? && e.x.Token? && e.x.id == id
  }

  /** Until then, and until the same app is set again, the token set is the token read. */
  lemma {:induction false} TokenLastsUntilSwap(initial: LuaData, before: seq<Step>, id: u32, text: string,
                                               after: seq<Step>)
    requires !HasSwap(after)
    requires forall i :: 0 <= i < |after| ==> !ChangesTokenOf(after[i], id)
    ensures var tokens := Published(initial, before + [Change(Token(id, text))] + after).accessTokens;
            if text == "" then id !in tokens else id in tokens && tokens[id] == text
  {
    var all := before + [Change(Token(id, text))] + after;
    if after == [] {
      assert all == before + [Change(Token(id, text))];
      assert all[..|all| - 1] == before;
    } else {
      var front, last := after[..|after| - 1], after[|after| - 1];
      assert all[..|all| - 1] == before + [Change(Token(id, text))] + front;
      assert forall i :: 0 <= i < |front| ==> front[i] == after[i];
      assert !HasSwap(front);
      TokenLastsUntilSwap(initial, before, id, text, front);
      assert !last.Swap?;
      assert !ChangesTokenOf(last, id);
    }
  }

  predicate ChangesStatOf(e: Step, id: u32) {
    e.Change? && e.x.Stat? && e.x.id == id
  }

  /** The same for the stat id of an app. */
  lemma {:induction false} StatLastsUntilSwap(initial: LuaData, before: seq<Step>, id: u32, text: string,
                                              after: seq<Step>)
    requires !HasSwap(after)
    requires forall i :: 0 <= i < |after| ==> !ChangesStatOf(after[i], id)
    ensures var stats := Published(initial, before + [Change(Stat(id, text))] + after).statSteamIds;
            if text == "" then id !in stats else id in stats && stats[id] == text
  {
    var all := before + [Change(Stat(id, text))] + after;
    if after == [] {
      assert all == before + [Change(Stat(id, text))];
      assert all[..|all| - 1] == before;
    } else {
      var front, last := after[..|after| - 1], after[|after| - 1];
      assert all[..|all| - 1] == before + [Change(Stat(id, text))] + front;
      assert forall i :: 0 <= i < |front| ==> front[i] == after[i];
      assert !HasSwap(front);
      StatLastsUntilSwap(initial, before, id, text, front);
      assert !last.Swap?;
      assert !ChangesStatOf(last, id);
    }
  }
}
