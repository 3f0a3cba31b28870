/** The double-buffered configuration: one slot is read while the other is rebuilt, then they swap. */
module ConfigStore {
  import opened Words

  /** One configuration snapshot. */
  datatype LuaData = LuaData(
    unlockedApps: set<u32>,
    depotKeys: map<u32, seq<byte>>,
    manifestIds: map<u32, string>,
    accessTokens: map<u32, string>,
    injectModules: map<u32, seq<string>>,
    statSteamIds: map<u32, string>,
    legacyCdKeys: map<u32, string>,
    eticketUrl: string)

  const NO_DATA := LuaData({}, map[], map[], map[], map[], map[], map[], "")

  /** What a script can record; the key of an app is given as the bytes its hex text stands for. */
  datatype Record =
    | AddApp(id: u32)
    | AddKey(id: u32, key: seq<byte>)
    | AddToken(id: u32, token: string)
    | SetManifest(id: u32, manifest: string)
    | SetStat(id: u32, steamId: string)
    | AddInject(id: u32, path: string)
    | SetCdKey(id: u32, cdKey: string)
    | SetUrl(url: string)

  function Write(d: LuaData, r: Record): LuaData {
    match r
    case AddApp(id) => d.(unlockedApps := d.unlockedApps + {id})
    case AddKey(id, key) => d.(depotKeys := d.depotKeys[id := key], unlockedApps := d.unlockedApps + {id})
    case AddToken(id, token) => if token == "" then d else d.(accessTokens := d.accessTokens[id := token])
    case SetManifest(id, manifest) => d.(manifestIds := d.manifestIds[id := manifest])
    case SetStat(id, steamId) => if steamId == "" then d else d.(statSteamIds := d.statSteamIds[id := steamId])
    case AddInject(id, path) =>
      var sofar := if id in d.injectModules then d.injectModules[id] else [];
      d.(injectModules := d.injectModules[id := sofar + [path]])
    case SetCdKey(id, cdKey) => if cdKey == "" then d else d.(legacyCdKeys := d.legacyCdKeys[id := cdKey])
    case SetUrl(url) => if url == "" then d else d.(eticketUrl := url)
  }

  function WriteAll(d: LuaData, rs: seq<Record>): LuaData {
    if rs == [] then d else Write(WriteAll(d, rs[..|rs| - 1]), rs[|rs| - 1])
  }

  /** A direct setting from the program; the empty text erases. */
  datatype Setting = Token(id: u32, text: string) | Stat(id: u32, text: string)

  function Set(d: LuaData, x: Setting): LuaData {
    match x
    case Token(id, text) =>
      d.(accessTokens := if text == "" then d.accessTokens - {id} else d.accessTokens[id := text])
    case Stat(id, text) =>
      d.(statSteamIds := if text == "" then d.statSteamIds - {id} else d.statSteamIds[id := text])
  }

  // ---- the store ------------------------------------------------------------------------------

  datatype Slots = Slots(zero: LuaData, one: LuaData, active: nat) {
    ghost predicate Valid() { active < 2 }

    function At(i: nat): LuaData { if i == 0 then zero else one }

    function With(i: nat, d: LuaData): Slots { if i == 0 then this.(zero := d) else this.(one := d) }

    /** What every reader sees. */
    function View(): LuaData { At(active) }

    function Staging(): nat { if active == 0 then 1 else 0 }

    /** A reload begins: its staging slot is emptied. */
    function Begun(): Slots { With(Staging(), NO_DATA) }

    /** A script records something in a slot. */
    function Recorded(slot: nat, r: Record): Slots { With(slot, Write(At(slot), r)) }

    /** A reload ends: its slot becomes the active one and the other is emptied. */
    function Activated(slot: nat): Slots { this.(active := slot).With(if slot == 0 then 1 else 0, NO_DATA) }

    /** A setter changes what readers see. */
    function Changed(x: Setting): Slots { With(active, Set(View(), x)) }
  }

  class LuaStore {
    var slots: array<LuaData>
    var activeSlot: nat

    ghost predicate Valid()
      reads this, slots
    {
      slots.Length == 2 && activeSlot < 2
    }

    function State(): Slots
      requires Valid()
      reads this, slots
    {
      Slots(slots[0], slots[1], activeSlot)
    }

    constructor ()
      ensures Valid() && State() == Slots(NO_DATA, NO_DATA, 0)
    {
      slots := new LuaData[2](_ => NO_DATA);
      activeSlot := 0;
    }

    /** First critical section of a reload: pick the inactive slot and empty it. */
    method BeginStaging() returns (stagingSlot: nat)
      requires Valid()
      modifies slots
      ensures Valid() && stagingSlot == old(State()).Staging()
      ensures State() == old(State()).Begun()
    {
      stagingSlot := 1 - activeSlot;
      slots[stagingSlot] := NO_DATA;
    }

    /** One record written by a running script. */
    method RecordInto(slot: nat, r: Record)
      requires Valid() && slot < 2
      modifies slots
      ensures Valid() && State() == old(State()).Recorded(slot, r)
    {
      slots[slot] := Write(slots[slot], r);
    }

    /** Last critical section of a reload: make the staged slot the active one and empty the other. */
    method Activate(stagingSlot: nat)
      requires Valid() && stagingSlot < 2
      modifies this, slots
      ensures Valid() && slots == old(slots)
      ensures State() == old(State()).Activated(stagingSlot)
    {
      activeSlot := stagingSlot;
      var staleSlot := 1 - stagingSlot;
      slots[staleSlot] := NO_DATA;
    }

    method SetAccessToken(appId: u32, token: string)
      requires Valid()
      modifies slots
      ensures Valid() && State() == old(State()).Changed(Token(appId, token))
    {
      var active := slots[activeSlot];
      if token == "" {
        active := active.(accessTokens := active.accessTokens - {appId});
      } else {
        active := active.(accessTokens := active.accessTokens[appId := token]);
      }
      slots[activeSlot] := active;
    }

    method SetStatSteamId(appId: u32, steamId: string)
      requires Valid()
      modifies slots
      ensures Valid() && State() == old(State()).Changed(Stat(appId, steamId))
    {
      var active := slots[activeSlot];
      if steamId == "" {
        active := active.(statSteamIds := active.statSteamIds - {appId});
      } else {
        active := active.(statSteamIds := active.statSteamIds[appId := steamId]);
      }
      slots[activeSlot] := active;
    }

    method Has(id: u32) returns (b: bool)
      requires Valid()
      ensures b <==> id in State().View().unlockedApps || id in State().View().depotKeys
    {
      var active := slots[activeSlot];
      b := id in active.unlockedApps || id in active.depotKeys;
    }

    /** The value recorded for the app, else the one recorded for all apps under zero, else nothing. */
    method GetStatSteamId(appId: u32) returns (id: string)
      requires Valid()
      ensures var m := State().View().statSteamIds;
              id == if appId in m then m[appId] else if 0 in m then m[0] else ""
    {
      var active := slots[activeSlot];
      if appId in active.statSteamIds {
        return active.statSteamIds[appId];
      }
      return if 0 in active.statSteamIds then active.statSteamIds[0] else "";
    }

    /** A whole reload, when nothing interleaves with it, shows exactly what its scripts recorded. */
    method ReloadDirectories(records: seq<Record>)
      requires Valid()
      modifies this, slots
      ensures Valid() && State().View() == WriteAll(NO_DATA, records)
      ensures State().At(State().Staging()) == NO_DATA
    {
      var stagingSlot := BeginStaging();
      var i := 0;
      while i < |records|
        invariant i <= |records| && Valid() && slots == old(slots) && activeSlot == old(activeSlot)
        invariant State().At(stagingSlot) == WriteAll(NO_DATA, records[..i])
      {
        assert records[..i + 1][..i] == records[..i];
        RecordInto(stagingSlot, records[i]);
        i := i + 1;
      }
      assert records[..i] == records;
      Activate(stagingSlot);
    }
  }
}
