/** What a published configuration shows, said of the records and settings alone. */
module ConfigReads {
  import opened Words
  import opened ConfigStore
  import opened ConfigRuns

  // ---- which records decide --------------------------------------------------------------------

  function KeysOf(id: u32): Record -> bool {
    (r: Record) => r.AddKey? && r.id == id
  }

  function TokensOf(id: u32): Record -> bool {
    (r: Record) => r.AddToken? && r.id == id && r.token != ""
  }

  function ManifestsOf(id: u32): Record -> bool {
    (r: Record) => r.SetManifest? && r.id == id
  }

  function StatsOf(id: u32): Record -> bool {
    (r: Record) => r.SetStat? && r.id == id && r.steamId != ""
  }

  function CdKeysOf(id: u32): Record -> bool {
    (r: Record) => r.SetCdKey? && r.id == id && r.cdKey != ""
  }

  function Urls(): Record -> bool {
    (r: Record) => r.SetUrl? && r.url != ""
  }

  /** The modules recorded for an app, in order. */
  function Modules(rs: seq<Record>, id: u32): seq<string> {
    if rs == [] then []
    else
      var last := rs[|rs| - 1];
      Modules(rs[..|rs| - 1], id) + if last.AddInject? && last.id == id then [last.path] else []
  }

  predicate Unlocks(rs: seq<Record>, id: u32) {
    exists i :: 0 <= i < |rs| && (rs[i] == AddApp(id) || (rs[i].AddKey? && rs[i].id == id))
  }

  predicate ShowsKeys(d: LuaData, rs: seq<Record>, id: u32) {
    && (id in d.unlockedApps <==> Unlocks(rs, id))
    && Last(rs, KeysOf(id)) == (if id in d.depotKeys then Some(AddKey(id, d.depotKeys[id])) else None)
  }

  predicate ShowsModules(d: LuaData, rs: seq<Record>, id: u32) {
    && Modules(rs, id) == (if id in d.injectModules then d.injectModules[id] else [])
    && (id in d.injectModules ==> d.injectModules[id] != [])
  }

  predicate ShowsTexts(d: LuaData, rs: seq<Record>, id: u32) {
    && Last(rs, ManifestsOf(id)) ==
       (if id in d.manifestIds then Some(SetManifest(id, d.manifestIds[id])) else None)
    && Last(rs, CdKeysOf(id)) == (if id in d.legacyCdKeys then Some(SetCdKey(id, d.legacyCdKeys[id])) else None)
  }

  /** Of one app: whether it is unlocked, its key, manifest, modules and cd key are those recorded. */
  predicate ShowsFixed(d: LuaData, rs: seq<Record>, id: u32) {
    ShowsKeys(d, rs, id) && ShowsModules(d, rs, id) && ShowsTexts(d, rs, id)
  }

  predicate ShowsToken(d: LuaData, rs: seq<Record>, id: u32) {
    Last(rs, TokensOf(id)) == if id in d.accessTokens then Some(AddToken(id, d.accessTokens[id])) else None
  }

  predicate ShowsStat(d: LuaData, rs: seq<Record>, id: u32) {
    Last(rs, StatsOf(id)) == if id in d.statSteamIds then Some(SetStat(id, d.statSteamIds[id])) else None
  }

  /** The url is the last one recorded. */
  predicate ShowsUrl(d: LuaData, rs: seq<Record>) {
    Last(rs, Urls()) == if d.eticketUrl == "" then None else Some(SetUrl(d.eticketUrl))
  }

  lemma UnlocksSnoc(rs: seq<Record>, r: Record, id: u32)
    ensures Unlocks(rs + [r], id) <==> Unlocks(rs, id) || r == AddApp(id) || (r.AddKey? && r.id == id)
  {
    var all := rs + [r];
    assert all[|rs|] == r;
    if Unlocks(rs, id) {
      var i :| 0 <= i < |rs| && (rs[i] == AddApp(id) || (rs[i].AddKey? && rs[i].id == id));
      assert all[i] == rs[i];
    }
  }

  lemma ModulesSnoc(rs: seq<Record>, r: Record, id: u32)
    ensures Modules(rs + [r], id) == Modules(rs, id) + if r.AddInject? && r.id == id then [r.path] else []
  {
    assert (rs + [r])[..|rs|] == rs;
  }

  /** What a reload shows of an app is decided by its records alone. */
  lemma {:induction false} RecordsShow(rs: seq<Record>, id: u32)
    ensures var d := WriteAll(NO_DATA, rs);
            ShowsFixed(d, rs, id) && ShowsToken(d, rs, id) && ShowsStat(d, rs, id) && ShowsUrl(d, rs)
  {
    if rs != [] {
      var front, r := rs[..|rs| - 1], rs[|rs| - 1];
      assert rs == front + [r];
      RecordsShow(front, id);
      WriteLast(rs);
      hide WriteAll;
      FixedSnoc(WriteAll(NO_DATA, front), front, r, id);
      SettableSnoc(WriteAll(NO_DATA, front), front, r, id);
    }
  }

  lemma WriteLast(rs: seq<Record>)
    requires rs != []
    ensures WriteAll(NO_DATA, rs) == Write(WriteAll(NO_DATA, rs[..|rs| - 1]), rs[|rs| - 1])
  {
  }

  lemma FixedSnoc(d: LuaData, rs: seq<Record>, r: Record, id: u32)
    requires ShowsFixed(d, rs, id) && ShowsUrl(d, rs)
    ensures ShowsFixed(Write(d, r), rs + [r], id) && ShowsUrl(Write(d, r), rs + [r])
  {
    hide ShowsKeys, ShowsModules, ShowsTexts, ShowsUrl, Write;
    KeysSnoc(d, rs, r, id);
    ModuleSnoc(d, rs, r, id);
    TextsSnoc(d, rs, r, id);
    UrlSnoc(d, rs, r);
  }

  lemma KeysSnoc(d: LuaData, rs: seq<Record>, r: Record, id: u32)
    requires ShowsKeys(d, rs, id)
    ensures ShowsKeys(Write(d, r), rs + [r], id)
  {
    hide Last, Unlocks;
    UnlocksSnoc(rs, r, id);
    LastSnoc(rs, r, KeysOf(id));
  }

  lemma ModuleSnoc(d: LuaData, rs: seq<Record>, r: Record, id: u32)
    requires ShowsModules(d, rs, id)
    ensures ShowsModules(Write(d, r), rs + [r], id)
  {
    hide Modules;
    ModulesSnoc(rs, r, id);
  }

  lemma TextsSnoc(d: LuaData, rs: seq<Record>, r: Record, id: u32)
    requires ShowsTexts(d, rs, id)
    ensures ShowsTexts(Write(d, r), rs + [r], id)
  {
    hide Last;
    LastSnoc(rs, r, ManifestsOf(id));
    LastSnoc(rs, r, CdKeysOf(id));
  }

  lemma UrlSnoc(d: LuaData, rs: seq<Record>, r: Record)
    requires ShowsUrl(d, rs)
    ensures ShowsUrl(Write(d, r), rs + [r])
  {
    hide Last;
    LastSnoc(rs, r, Urls());
  }

  lemma SettableSnoc(d: LuaData, rs: seq<Record>, r: Record, id: u32)
    requires ShowsToken(d, rs, id) && ShowsStat(d, rs, id)
    ensures ShowsToken(Write(d, r), rs + [r], id) && ShowsStat(Write(d, r), rs + [r], id)
  {
    hide Last;
    LastSnoc(rs, r, TokensOf(id));
    LastSnoc(rs, r, StatsOf(id));
  }

  // ---- in every run ----------------------------------------------------------------------------

  /** What the reload in progress has recorded since it began. */
  function RecordedSince(es: seq<Step>): seq<Record> {
    if es == [] then []
    else
      var front, last := es[..|es| - 1], es[|es| - 1];
      match last
      case Begin(t) => []
      case Put(t, r) => RecordedSince(front) + [r]
      case _ => RecordedSince(front)
  }

  lemma {:induction false} StagedIsRecorded(es: seq<Step>)
    ensures Staged(es) == WriteAll(NO_DATA, RecordedSince(es))
  {
    if es != [] {
      var front, last := es[..|es| - 1], es[|es| - 1];
      StagedIsRecorded(front);
      if last.Put? {
        var rs := RecordedSince(front) + [last.r];
        assert rs[..|rs| - 1] == RecordedSince(front);
      }
      hide Write;
    }
  }

  lemma {:induction false} SettingsKeepTheRest(initial: LuaData, before: seq<Step>, after: seq<Step>)
    requires !HasSwap(after)
    ensures var d, e := Published(initial, before), Published(initial, before + after);
            e == d.(accessTokens := e.accessTokens, statSteamIds := e.statSteamIds)
    decreases |after|
  {
    if after == [] {
      assert before + after == before;
    } else {
      var front, last := after[..|after| - 1], after[|after| - 1];
      var all := before + after;
      assert all[..|all| - 1] == before + front;
      assert forall i :: 0 <= i < |front| ==> front[i] == after[i];
      assert !HasSwap(front) && !last.Swap?;
      SettingsKeepTheRest(initial, before, front);
      hide Published, Set;
      PublishedSnoc(initial, all, last);
      if last.Change? {
        SetKeepsTheRest(Published(initial, before + front), last.x);
      }
    }
  }

  /** A setting of one app's token changes no other token, and nobody else's setting does. */
  lemma {:induction false} UnsetStays(initial: LuaData, before: seq<Step>, after: seq<Step>, id: u32)
    requires !HasSwap(after)
    ensures var d, e := Published(initial, before), Published(initial, before + after);
            && ((forall i :: 0 <= i < |after| ==> !ChangesTokenOf(after[i], id)) ==>
                  SameAt(d.accessTokens, e.accessTokens, id))
            && ((forall i :: 0 <= i < |after| ==> !ChangesStatOf(after[i], id)) ==>
                  SameAt(d.statSteamIds, e.statSteamIds, id))
    decreases |after|
  {
    if after == [] {
      assert before + after == before;
    } else {
      var front, last := after[..|after| - 1], after[|after| - 1];
      var all := before + after;
      assert all[..|all| - 1] == before + front;
      assert forall i :: 0 <= i < |front| ==> front[i] == after[i];
      assert !HasSwap(front) && !last.Swap?;
      UnsetStays(initial, before, front, id);
      assert after[|front|] == last;
      hide Published, Set;
      PublishedSnoc(initial, all, last);
      if last.Change? {
        SetKeepsTheRest(Published(initial, before + front), last.x);
        SetOfOther(Published(initial, before + front), last.x, id);
      }
    }
  }

  lemma PublishedSnoc(initial: LuaData, all: seq<Step>, last: Step)
    requires all != [] && all[|all| - 1] == last && !last.Swap?
    ensures Published(initial, all) ==
            if last.Change? then Set(Published(initial, all[..|all| - 1]), last.x)
            else Published(initial, all[..|all| - 1])
  {
    hide Set;
  }

  lemma SetKeepsTheRest(d: LuaData, x: Setting)
    ensures var e := Set(d, x); e == d.(accessTokens := e.accessTokens, statSteamIds := e.statSteamIds)
  {
  }

  lemma SetOfOther(d: LuaData, x: Setting, id: u32)
    ensures !(x.Token? && x.id == id) ==> SameAt(d.accessTokens, Set(d, x).accessTokens, id)
    ensures !(x.Stat? && x.id == id) ==> SameAt(d.statSteamIds, Set(d, x).statSteamIds, id)
  {
  }

  predicate SameAt(m: map<u32, string>, n: map<u32, string>, id: u32) {
    (id in m <==> id in n) && (id in m ==> m[id] == n[id])
  }

  /**
    * In every run, from a reload's swap until the next one, readers see exactly what that reload recorded, but for the
    * tokens and stat ids set since.
    */
  lemma SwapShowsRecords(w: World, initial: LuaData, before: seq<Step>, t: Thread, after: seq<Step>, id: u32)
    requires IsRun(w, initial, before + [Swap(t)] + after) && !HasSwap(after)
    ensures ShowsFixed(w.slots.View(), RecordedSince(before), id) && ShowsUrl(w.slots.View(), RecordedSince(before))
    ensures (forall i :: 0 <= i < |after| ==> !ChangesTokenOf(after[i], id)) ==>
              ShowsToken(w.slots.View(), RecordedSince(before), id)
    ensures (forall i :: 0 <= i < |after| ==> !ChangesStatOf(after[i], id)) ==>
              ShowsStat(w.slots.View(), RecordedSince(before), id)
  {
    var swapped := before + [Swap(t)];
    hide IsRun, Last, Unlocks, Modules, HasSwap, ChangesTokenOf, ChangesStatOf;
    ReadersSeePublished(w, initial, swapped + after);
    assert swapped[..|swapped| - 1] == before;
    StagedIsRecorded(before);
    assert Published(initial, swapped) == Staged(before);
    hide Published, Staged;
    RecordsShow(RecordedSince(before), id);
    SettingsKeepTheRest(initial, swapped, after);
    UnsetStays(initial, swapped, after, id);
  }

  // ---- reloads can happen --------------------------------------------------------------------------

  function Puts(t: Thread, rs: seq<Record>): (es: seq<Step>)
    ensures |es| == |rs|
  {
    if rs == [] then [] else Puts(t, rs[..|rs| - 1]) + [Put(t, rs[|rs| - 1])]
  }

  /** The steps of a whole reload. */
  function Reload(t: Thread, rs: seq<Record>): seq<Step> {
    [TakeLock(t), Begin(t)] + Puts(t, rs) + [Swap(t), LeaveLock(t)]
  }

  lemma RunSnoc(w: World, initial: LuaData, es: seq<Step>, e: Step)
    requires IsRun(w, initial, es) && Enabled(w, e)
    ensures IsRun(Next(w, e), initial, es + [e])
  {
    hide Next, Enabled;
    assert (es + [e])[..|es|] == es;
  }

  lemma {:induction false} PutsRun(w: World, initial: LuaData, es: seq<Step>, t: Thread, rs: seq<Record>)
    returns (v: World)
    requires IsRun(w, initial, es) && w.PlaceOf(t).Staging?
    ensures IsRun(v, initial, es + Puts(t, rs))
    ensures v.owner == w.owner && v.places == w.places
    decreases |rs|
  {
    hide IsRun;
    if rs == [] {
      assert es + Puts(t, rs) == es;
      v := w;
    } else {
      var front, r := rs[..|rs| - 1], rs[|rs| - 1];
      var u := PutsRun(w, initial, es, t, front);
      v := Next(u, Put(t, r));
      RunSnoc(u, initial, es + Puts(t, front), Put(t, r));
      assert es + Puts(t, front) + [Put(t, r)] == es + Puts(t, rs);
    }
  }

  /** Whenever the lock is free any thread can reload, whatever its scripts record, and then the records show. */
  lemma ReloadRuns(w: World, initial: LuaData, es: seq<Step>, t: Thread, rs: seq<Record>, id: u32) returns (v: World)
    requires IsRun(w, initial, es) && w.owner == None
    ensures IsRun(v, initial, es + Reload(t, rs)) && v.owner == None
    ensures ShowsFixed(v.slots.View(), rs, id) && ShowsToken(v.slots.View(), rs, id)
    ensures ShowsStat(v.slots.View(), rs, id) && ShowsUrl(v.slots.View(), rs)
  {
    hide IsRun, Next, Enabled, ShowsFixed, ShowsToken, ShowsStat, ShowsUrl;
    var begun := es + [TakeLock(t)] + [Begin(t)];
    var u := BeginRuns(w, initial, es, t);
    u := PutsRun(u, initial, begun, t, rs);
    v := EndRuns(u, initial, begun + Puts(t, rs), t);
    RecordedPuts(es + [TakeLock(t)], t, rs);
    var before := begun + Puts(t, rs);
    assert es + Reload(t, rs) == before + [Swap(t)] + [LeaveLock(t)];
    SwapShowsRecords(v, initial, before, t, [LeaveLock(t)], id);
  }

  lemma BeginRuns(w: World, initial: LuaData, es: seq<Step>, t: Thread) returns (u: World)
    requires IsRun(w, initial, es) && w.owner == None
    ensures IsRun(u, initial, es + [TakeLock(t)] + [Begin(t)]) && u.PlaceOf(t).Staging? && u.owner == Some(t)
  {
    RunsKeepInvariant(w, initial, es);
    hide IsRun, SlotsMatch;
    var locked := Next(w, TakeLock(t));
    RunSnoc(w, initial, es, TakeLock(t));
    RunSnoc(locked, initial, es + [TakeLock(t)], Begin(t));
    u := Next(locked, Begin(t));
  }

  lemma EndRuns(w: World, initial: LuaData, es: seq<Step>, t: Thread) returns (v: World)
    requires IsRun(w, initial, es) && w.PlaceOf(t).Staging?
    ensures IsRun(v, initial, es + [Swap(t)] + [LeaveLock(t)]) && v.owner == None
  {
    hide IsRun;
    var swapped := Next(w, Swap(t));
    RunSnoc(w, initial, es, Swap(t));
    RunSnoc(swapped, initial, es + [Swap(t)], LeaveLock(t));
    v := Next(swapped, LeaveLock(t));
  }

  lemma {:induction false} RecordedPuts(es: seq<Step>, t: Thread, rs: seq<Record>)
    ensures RecordedSince(es + [Begin(t)] + Puts(t, rs)) == rs
  {
    var begun := es + [Begin(t)];
    if rs == [] {
      assert begun + Puts(t, rs) == begun;
      assert begun[..|begun| - 1] == es;
    } else {
      var front, r := rs[..|rs| - 1], rs[|rs| - 1];
      var all := begun + Puts(t, rs);
      RecordedPuts(es, t, front);
      assert all == begun + Puts(t, front) + [Put(t, r)];
      assert all[..|all| - 1] == begun + Puts(t, front);
    }
  }
}
