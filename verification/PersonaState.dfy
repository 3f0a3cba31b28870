/** Rewriting the user's own entry inside a persona-state message. */
module PersonaState {
  import opened Words
  import opened Varints
  import opened Messages
  import opened ProtoFields

  const FIELD_STATUS_FLAGS: u32 := 1
  const FIELD_FRIENDS: u32 := 2
  const FRIEND_ID: u32 := 1
  const FRIEND_GAME_PLAYED_APP_ID: u32 := 3
  const FRIEND_GAME_NAME: u32 := 55
  const FRIEND_GAME_ID: u32 := 56
  const FRIEND_RICH_PRESENCE: u32 := 71
  const RICH_PRESENCE_FLAG: nat := 0x1000

  const REPLACED: set<u32> := {FRIEND_GAME_PLAYED_APP_ID, FRIEND_GAME_NAME, FRIEND_GAME_ID, FRIEND_RICH_PRESENCE}

  /** One rich-presence pair. */
  datatype KV = KV(key: seq<byte>, value: seq<byte>)

  /** What the tracker knows: the local user and the pairs captured per app. */
  datatype Tracker = Tracker(self: u64, pairs: map<u32, seq<KV>>) {
    function PairsOf(appid: u32): seq<KV> {
      if appid in pairs then pairs[appid] else []
    }
  }

  // ---- the status flags ------------------------------------------------------------

  predicate HasFlag(v: nat) {
    v % 0x2000 >= RICH_PRESENCE_FLAG
  }

  /** `v |= flag`. */
  function SetFlag(v: u64): nat {
    if HasFlag(v) then v else v + RICH_PRESENCE_FLAG
  }

  /** `v &= ~flag`: the mask is a 32-bit word, so the upper half of `v` goes as well. */
  function ClearFlag(v: u64): int {
    var low := v % TWO_32;
    if HasFlag(low) then low - RICH_PRESENCE_FLAG else low
  }

  /** On 64-bit words these are the or and the and of the source, with the flag set and without it. */
  lemma FlagOperationsWhenSet(v: bv64)
    requires v & 0x1000 != 0
    ensures v | 0x1000 == v && (v & 0xFFFF_EFFF) + 0x1000 == v & 0xFFFF_FFFF
  {
  }

  lemma FlagOperationsWhenClear(v: bv64)
    requires v & 0x1000 == 0
    ensures v | 0x1000 == v + 0x1000 && v & 0xFFFF_EFFF == v & 0xFFFF_FFFF
  {
  }

  lemma ModFlag(v: nat, q: nat, r: nat)
    requires v == q * 0x2000 + r && r < 0x2000
    ensures v % 0x2000 == r
  {
  }

  lemma Mod32(v: nat, q: nat, r: nat)
    requires v == q * TWO_32 + r && r < TWO_32
    ensures v % TWO_32 == r
  {
  }

  lemma FlagUp(v: nat)
    requires !HasFlag(v)
    ensures HasFlag(v + RICH_PRESENCE_FLAG)
  {
    ModFlag(v + RICH_PRESENCE_FLAG, v / 0x2000, v % 0x2000 + RICH_PRESENCE_FLAG);
  }

  lemma FlagDown(v: nat)
    requires HasFlag(v)
    ensures v >= RICH_PRESENCE_FLAG && !HasFlag(v - RICH_PRESENCE_FLAG)
  {
    ModFlag(v - RICH_PRESENCE_FLAG, v / 0x2000, v % 0x2000 - RICH_PRESENCE_FLAG);
  }

  /** The flag lies in the lower half, with room above it. */
  lemma FlagOfLow(v: nat)
    ensures HasFlag(v % TWO_32) == HasFlag(v)
    ensures !HasFlag(v) ==> (v + RICH_PRESENCE_FLAG) % TWO_32 == v % TWO_32 + RICH_PRESENCE_FLAG
  {
    var q, low := v / TWO_32, v % TWO_32;
    ModFlag(v, q * 0x8_0000 + low / 0x2000, low % 0x2000);
    if !HasFlag(v) {
      assert low / 0x2000 * 0x2000 <= TWO_32 - 0x2000;
      Mod32(v + RICH_PRESENCE_FLAG, q, low + RICH_PRESENCE_FLAG);
    }
  }

  lemma FlagBounds(v: u64)
    ensures SetFlag(v) < TWO_64 && 0 <= ClearFlag(v) < TWO_32
    ensures HasFlag(SetFlag(v)) && !HasFlag(ClearFlag(v))
  {
    if HasFlag(v % TWO_32) {
      FlagDown(v % TWO_32);
    }
    if !HasFlag(v) {
      FlagUp(v);
      TopFlag(v);
    }
  }

  lemma TopFlag(v: u64)
    requires !HasFlag(v)
    ensures v + RICH_PRESENCE_FLAG < TWO_64
  {
    assert v / 0x2000 * 0x2000 <= TWO_64 - 0x2000;
  }

  /** Whether patching for the app raises the rich-presence flag or takes it down. */
  predicate Raises(t: Tracker, appid: u32) {
    appid == 0 || t.PairsOf(appid) != []
  }

  function NewFlags(t: Tracker, appid: u32, before: u64): (v: u64)
  {
    FlagBounds(before);
    if Raises(t, appid) then SetFlag(before) else ClearFlag(before)
  }

  /** How two patches compose on the flags: the last one decides, but a lost upper half stays lost. */
  lemma FlagsCompose(t: Tracker, a: u32, b: u32, v: u64)
    ensures NewFlags(t, b, NewFlags(t, a, v)) == NewFlags(t, b, v) <==>
            !(Raises(t, b) && !Raises(t, a) && v >= TWO_32)
  {
    hide HasFlag, SetFlag, ClearFlag;
    FlagBounds(v);
    SetAfterSet(v);
    SetAfterClear(v);
    ClearAfterSet(v);
    ClearAfterClear(v);
  }

  lemma SetAfterSet(v: u64)
    ensures SetFlag(v) < TWO_64 && SetFlag(SetFlag(v)) == SetFlag(v)
  {
    hide HasFlag;
    FlagBounds(v);
  }

  lemma SetAfterClear(v: u64)
    ensures 0 <= ClearFlag(v) < TWO_32
    ensures SetFlag(ClearFlag(v)) == SetFlag(v) <==> v < TWO_32
  {
    hide HasFlag;
    FlagOfLow(v);
    FlagBounds(v);
    assert v == v / TWO_32 * TWO_32 + v % TWO_32;
  }

  lemma ClearAfterSet(v: u64)
    ensures SetFlag(v) < TWO_64 && ClearFlag(SetFlag(v)) == ClearFlag(v)
  {
    hide HasFlag;
    FlagOfLow(v);
    FlagOfLow(SetFlag(v));
    FlagBounds(v);
  }

  lemma ClearAfterClear(v: u64)
    ensures 0 <= ClearFlag(v) < TWO_32 && ClearFlag(ClearFlag(v)) == ClearFlag(v)
  {
    hide HasFlag;
    FlagBounds(v);
  }

  // ---- what patching means on field sequences -----------------------------------------

  /** The fields announcing the game: none when clearing. */
  function Presence(t: Tracker, appid: u32): seq<Field> {
    if appid == 0 then []
    else [VarintField(FRIEND_GAME_PLAYED_APP_ID, appid), Fixed64Field(FRIEND_GAME_ID, appid)]
         + PairFields(t.PairsOf(appid))
  }

  function PairFields(kvs: seq<KV>): seq<Field> {
    if kvs == [] then [] else PairFields(kvs[..|kvs| - 1]) + [PairField(kvs[|kvs| - 1])]
  }

  function PairField(kv: KV): Field {
    BytesField(FRIEND_RICH_PRESENCE, BytesField(1, kv.key).raw + BytesField(2, kv.value).raw)
  }

  /** An entry that names the local user. */
  predicate NamesSelf(entry: seq<byte>, t: Tracker) {
    GetScalar(entry, FRIEND_ID).Some? && GetScalar(entry, FRIEND_ID).value.value == t.self
  }

  /** The entry with the announcement replaced; none when the entry is malformed. */
  function Announced(entry: seq<byte>, t: Tracker, appid: u32): Option<seq<byte>> {
    match Pruned(entry, REPLACED)
    case None => None
    case Some(kept) => Some(kept + Flatten(Presence(t, appid)))
  }

  /**
    * The entry of a friends field at the front of `s`, as it is read whatever its wire type says: a length,
    * cut to 32 bits, and that many bytes. None when they would lie beyond the buffer.
    */
  function EntrySpan(s: seq<byte>, head: nat): Option<seq<byte>>
    requires head <= |s|
  {
    var len := Decode(s[head..]);
    var at, n := head + len.used, len.value % TWO_32;
    if at + n <= |s| then Some(s[at..at + n]) else None
  }

  /** What becomes of the field `f` at the front of `s`; none for a malformed entry of the local user. */
  function Turned(s: seq<byte>, f: Field, t: Tracker, appid: u32): Option<seq<byte>>
    requires f.head <= |s|
  {
    if f.Number() == FIELD_STATUS_FLAGS then Some([])
    else if f.Number() != FIELD_FRIENDS then Some(f.raw)
    else
      match EntrySpan(s, f.head)
      case None => None
      case Some(entry) =>
        if !NamesSelf(entry, t) then Some(f.raw)
        else
          match Announced(entry, t, appid)
          case None => None
          case Some(announced) => Some(BytesField(FIELD_FRIENDS, announced).raw)
  }

  function TurnedAll(s: seq<byte>, t: Tracker, appid: u32): Option<seq<byte>>
    decreases |s|
  {
    if s == [] then Some([])
    else
      match ParseField(s, true)
      case None => None
      case Some(f) => Joined(Turned(s, f, t, appid), TurnedAll(s[|f.raw|..], t, appid))
  }

  function Joined(a: Option<seq<byte>>, b: Option<seq<byte>>): Option<seq<byte>> {
    if a == None || b == None then None else Some(a.value + b.value)
  }

  /**
    * Every entry read lies inside the buffer, as far as the patcher gets: exactly when the length of each
    * friends field, as it is read, fits what is left of the buffer.
    */
  predicate StaysInside(s: seq<byte>, t: Tracker)
    decreases |s|
  {
    match ParseField(s, true)
    case None => true
    case Some(f) =>
      && (f.Number() == FIELD_FRIENDS ==> EntrySpan(s, f.head).Some?)
      && (Turned(s, f, t, 0) == None || StaysInside(s[|f.raw|..], t))
  }

  /** The last status-flags value; it is read from the bytes after the tag whatever the wire type says. */
  function StatusFlags(s: seq<byte>): Option<u64>
    decreases |s|
  {
    match ParseField(s, true)
    case None => None
    case Some(f) =>
      var later := StatusFlags(s[|f.raw|..]);
      if later.Some? then later
      else if f.Number() == FIELD_STATUS_FLAGS then Some(Decode(s[f.head..]).value)
      else None
  }

  function FlagsOrZero(s: Option<u64>): u64 {
    match s
    case Some(v) => v
    case None => 0
  }

  /** The status field appended at the end: omitted when there was none and nothing is raised. */
  function StatusField(t: Tracker, appid: u32, before: Option<u64>): seq<Field> {
    var v := NewFlags(t, appid, FlagsOrZero(before));
    if before.Some? || v != 0 then [VarintField(FIELD_STATUS_FLAGS, v)] else []
  }

  /** The patched message; none for a malformed one. */
  function Patched(body: seq<byte>, t: Tracker, appid: u32): Option<seq<byte>> {
    match TurnedAll(body, t, appid)
    case None => None
    case Some(out) => Some(out + Flatten(StatusField(t, appid, StatusFlags(body))))
  }

  // ---- the patcher --------------------------------------------------------------------

  /** How status flags accumulate while a reader passes over fields. */
  function FlagsSoFar(done: Option<u64>, ahead: Option<u64>): Option<u64> {
    if ahead.Some? then ahead else done
  }

  /** What the patcher knows at `ptr`: what it wrote, and that the rest follows from the bytes ahead. */
  ghost predicate PatchTurn(data: seq<byte>, ptr: nat, t: Tracker, appid: u32, out: seq<byte>, flags: Option<u64>) {
    && ptr <= |data|
    && TurnedAll(data, t, appid) == Joined(Some(out), TurnedAll(data[ptr..], t, appid))
    && (StaysInside(data, t) <==> StaysInside(data[ptr..], t))
    && StatusFlags(data) == FlagsSoFar(flags, StatusFlags(data[ptr..]))
  }

  lemma PatchTurnStart(data: seq<byte>, t: Tracker, appid: u32)
    ensures PatchTurn(data, 0, t, appid, [], None)
  {
    hide StatusFlags, TurnedAll, StaysInside;
    assert data[0..] == data;
    if TurnedAll(data, t, appid).Some? {
      assert [] + TurnedAll(data, t, appid).value == TurnedAll(data, t, appid).value;
    }
  }

  lemma PatchTurnEnd(data: seq<byte>, t: Tracker, appid: u32, out: seq<byte>, flags: Option<u64>)
    requires PatchTurn(data, |data|, t, appid, out, flags)
    ensures TurnedAll(data, t, appid) == Some(out) && StaysInside(data, t) && StatusFlags(data) == flags
  {
    EmptyHasNoField(true);
    hide ParseField;
    assert data[|data|..] == [];
    assert out + [] == out;
  }

  lemma StatusStep(data: seq<byte>, ptr: nat)
    requires ptr <= |data|
    ensures match ParseField(data[ptr..], true)
            case None => StatusFlags(data[ptr..]) == None
            case Some(f) =>
              && ptr + |f.raw| <= |data|
              && StatusFlags(data[ptr..]) ==
                 FlagsSoFar(if f.Number() == FIELD_STATUS_FLAGS then Some(Decode(data[ptr + f.head..]).value) else None,
                            StatusFlags(data[ptr + |f.raw|..]))
  {
    hide ParseField, Decode;
    match ParseField(data[ptr..], true)
    case None =>
    case Some(f) =>
      assert data[ptr..][|f.raw|..] == data[ptr + |f.raw|..];
      assert data[ptr..][f.head..] == data[ptr + f.head..];
  }

  /** Whether a field fails does not depend on the app. */
  lemma TurnedFailsAlike(s: seq<byte>, f: Field, t: Tracker, a: u32, b: u32)
    requires f.head <= |s|
    ensures Turned(s, f, t, a) == None <==> Turned(s, f, t, b) == None
  {
    hide Decode, GetScalar, Pruned, Flatten, Presence, BytesField;
  }

  lemma PatchTurnStep(data: seq<byte>, ptr: nat, t: Tracker, appid: u32, out: seq<byte>, flags: Option<u64>)
    requires PatchTurn(data, ptr, t, appid, out, flags) && ptr < |data|
    ensures match ParseField(data[ptr..], true)
            case None => TurnedAll(data, t, appid) == None && StaysInside(data, t)
            case Some(f) =>
              && 0 < f.head <= |f.raw| && ptr + |f.raw| <= |data|
              && match Turned(data[ptr..], f, t, appid)
                 case None =>
                   && TurnedAll(data, t, appid) == None
                   && (StaysInside(data, t) <==> (f.Number() == FIELD_FRIENDS ==> EntrySpan(data[ptr..], f.head).Some?))
                 case Some(own) =>
                   PatchTurn(data, ptr + |f.raw|, t, appid, out + own,
                             if f.Number() == FIELD_STATUS_FLAGS
                             then Some(Decode(data[ptr + f.head..]).value) else flags)
  {
    hide ParseField, Decode, Turned, StatusFlags, EntrySpan;
    StatusStep(data, ptr);
    var s := data[ptr..];
    match ParseField(s, true)
    case None =>
    case Some(f) =>
      TurnedFailsAlike(s, f, t, appid, 0);
      TurnedSpan(s, f, t, appid);
      assert s[|f.raw|..] == data[ptr + |f.raw|..];
      var own, rest := Turned(s, f, t, appid), TurnedAll(data[ptr + |f.raw|..], t, appid);
      if own.Some? && rest.Some? {
        assert out + (own.value + rest.value) == out + own.value + rest.value;
      }
  }

  lemma TurnedSpan(s: seq<byte>, f: Field, t: Tracker, appid: u32)
    requires f.head <= |s|
    ensures Turned(s, f, t, appid).Some? ==> (f.Number() == FIELD_FRIENDS ==> EntrySpan(s, f.head).Some?)
  {
    hide EntrySpan, NamesSelf, Announced, BytesField;
  }

  /** The entry of the friends field at `ptr`, where a reader of the buffer finds it. */
  lemma SpanInPlace(data: seq<byte>, ptr: nat, head: nat)
    requires ptr + head <= |data|
    ensures var len := Decode(data[ptr + head..]);
            var at, n := ptr + head + len.used, len.value % TWO_32;
            EntrySpan(data[ptr..], head) == if at + n <= |data| then Some(data[at..at + n]) else None
  {
    hide Decode;
    assert data[ptr..][head..] == data[ptr + head..];
    var len := Decode(data[ptr + head..]);
    var at, n := head + len.used, len.value % TWO_32;
    if ptr + at + n <= |data| {
      assert data[ptr..][at..at + n] == data[ptr + at..ptr + at + n];
    }
  }

  lemma FlattenSmall(f: Field)
    ensures Flatten([]) == [] && Flatten([f]) == f.raw
  {
    assert [f][1..] == [];
  }

  method AppendKVField(friendMsg: ByteVector, field: u32, kv: KV)
    requires |BytesField(field, BytesField(1, kv.key).raw + BytesField(2, kv.value).raw).raw| < TWO_63
    modifies friendMsg
    ensures friendMsg.bytes ==
            old(friendMsg.bytes) + BytesField(field, BytesField(1, kv.key).raw + BytesField(2, kv.value).raw).raw
  {
    hide Encode;
    var pair := new ByteVector([]);
    AppendBytesField(pair, 1, kv.key);
    AppendBytesField(pair, 2, kv.value);
    AppendBytesField(friendMsg, field, pair.bytes);
  }

  /** Appends the fields announcing the game to a friend entry. */
  method AppendPresence(friendMsg: ByteVector, t: Tracker, appid: u32)
    requires |Flatten(Presence(t, appid))| < TWO_63
    modifies friendMsg
    ensures friendMsg.bytes == old(friendMsg.bytes) + Flatten(Presence(t, appid))
  {
    hide Encode, Flatten, BytesField, VarintField, Fixed64Field, PairField, Presence, PresenceUpTo;
    var kvs := t.PairsOf(appid);
    PresencePrefix(t, appid, 0);
    if appid != 0 {
      AppendVarintField(friendMsg, FRIEND_GAME_PLAYED_APP_ID, appid);
      AppendFixed64Field(friendMsg, FRIEND_GAME_ID, appid);
      var i := 0;
      while i < |kvs|
        invariant i <= |kvs|
        invariant friendMsg.bytes == old(friendMsg.bytes) + Flatten(PresenceUpTo(t, appid, i))
      {
        PresencePrefix(t, appid, i);
        PairFieldIs(kvs[i]);
        AppendKVField(friendMsg, FRIEND_RICH_PRESENCE, kvs[i]);
        i := i + 1;
      }
    } else {
      assert friendMsg.bytes + [] == friendMsg.bytes;
    }
    PresenceComplete(t, appid);
  }

  lemma PresenceComplete(t: Tracker, appid: u32)
    ensures appid == 0 ==> Flatten(Presence(t, appid)) == []
    ensures appid != 0 ==> Presence(t, appid) == PresenceUpTo(t, appid, |t.PairsOf(appid)|)
  {
    hide VarintField, Fixed64Field, PairFields;
    assert t.PairsOf(appid)[..|t.PairsOf(appid)|] == t.PairsOf(appid);
  }

  /** The announcing fields with only the first `n` pairs. */
  function PresenceUpTo(t: Tracker, appid: u32, n: nat): seq<Field>
    requires n <= |t.PairsOf(appid)|
  {
    [VarintField(FRIEND_GAME_PLAYED_APP_ID, appid), Fixed64Field(FRIEND_GAME_ID, appid)]
    + PairFields(t.PairsOf(appid)[..n])
  }

  lemma PairFieldIs(kv: KV)
    ensures PairField(kv) == BytesField(FRIEND_RICH_PRESENCE, BytesField(1, kv.key).raw + BytesField(2, kv.value).raw)
  {
  }

  lemma PresencePrefix(t: Tracker, appid: u32, n: nat)
    requires n <= |t.PairsOf(appid)|
    ensures Flatten([]) == []
    ensures n == 0 ==> Flatten(PresenceUpTo(t, appid, n)) ==
                       VarintField(FRIEND_GAME_PLAYED_APP_ID, appid).raw + Fixed64Field(FRIEND_GAME_ID, appid).raw
    ensures n < |t.PairsOf(appid)| ==>
              Flatten(PresenceUpTo(t, appid, n + 1)) ==
              Flatten(PresenceUpTo(t, appid, n)) + PairField(t.PairsOf(appid)[n]).raw
    ensures appid != 0 && n < |t.PairsOf(appid)| ==>
              |PairField(t.PairsOf(appid)[n]).raw| <= |Flatten(Presence(t, appid))|
  {
    hide VarintField, Fixed64Field, PairField;
    var kvs := t.PairsOf(appid);
    if n == 0 {
      TwoFields(VarintField(FRIEND_GAME_PLAYED_APP_ID, appid), Fixed64Field(FRIEND_GAME_ID, appid));
      assert PresenceUpTo(t, appid, 0) ==
             [VarintField(FRIEND_GAME_PLAYED_APP_ID, appid), Fixed64Field(FRIEND_GAME_ID, appid)];
    }
    if n < |kvs| {
      assert kvs[..n + 1][..n] == kvs[..n];
      assert PresenceUpTo(t, appid, n + 1) == PresenceUpTo(t, appid, n) + [PairField(kvs[n])];
      FlattenAppend(PresenceUpTo(t, appid, n), [PairField(kvs[n])]);
      FlattenSmall(PairField(kvs[n]));
      PairFieldsAt(kvs, n);
      if appid != 0 {
        assert Presence(t, appid)[2 + n] == PairField(kvs[n]);
        FieldInFlatten(Presence(t, appid), 2 + n);
      }
    }
  }

  lemma {:induction false} PairFieldsAt(kvs: seq<KV>, i: nat)
    ensures |PairFields(kvs)| == |kvs|
    ensures i < |kvs| ==> PairFields(kvs)[i] == PairField(kvs[i])
  {
    hide PairField;
    if kvs != [] {
      PairFieldsAt(kvs[..|kvs| - 1], i);
    }
  }

  lemma TwoFields(f: Field, g: Field)
    ensures Flatten([f, g]) == f.raw + g.raw
  {
    assert [f, g][1..] == [g];
    FlattenSmall(g);
  }

  /**
    * Rewrites the local user's entry for the app (zero clears) and re-appends the status flags. `inside` is
    * false where the program would read an entry beyond the body; what it then does is not specified.
    */
  method PatchPersonaStateBody(body: seq<byte>, t: Tracker, appid: u32)
    returns (inside: bool, result: Option<seq<byte>>)
    requires |Flatten(Presence(t, appid))| < TWO_63
    ensures inside <==> StaysInside(body, t)
    ensures inside ==> result == Patched(body, t, appid)
  {
    hide ParseField, Decode, PatchTurn, GetScalar, Pruned, Presence, Flatten, TurnedAll, StaysInside, EntrySpan,
         StatusFlags, BytesField, VarintField, NewFlags;
    var ptr := 0;
    var out := new ByteVector([]);
    var flags: Option<u64> := None;
    PatchTurnStart(body, t, appid);
    while ptr < |body|
      invariant ptr <= |body| && fresh(out)
      invariant PatchTurn(body, ptr, t, appid, out.bytes, flags)
    {
      StepOverField(body, ptr, true);
      PatchTurnStep(body, ptr, t, appid, out.bytes, flags);
      ghost var parsed := ParseField(body[ptr..], true);
      var fieldStart := ptr;
      var ok, next, field, wire := ReadTag(body, ptr);
      if !ok {
        return true, None;
      }
      ok, ptr := SkipPayload(body, next, wire);
      if !ok {
        return true, None;
      }
      ghost var f := parsed.value;
      assert out.bytes + [] == out.bytes;
      if field == FIELD_STATUS_FLAGS {
        var status;
        ok, next, status := ReadVarint(body, next);
        flags := Some(status);
        continue;
      }
      if field == FIELD_FRIENDS {
        SpanInPlace(body, fieldStart, f.head);
        var len;
        ok, next, len := ReadVarint(body, next);
        var size := len % TWO_32;
        if next + size > |body| {
          return false, None;
        }
        var friendMsg := body[next..next + size];
        var friendId := GetScalarField(friendMsg, FRIEND_ID);
        if friendId.Some? && friendId.value.value == t.self {
          var pruned := WithoutFields(friendMsg, REPLACED);
          if pruned == None {
            return true, None;
          }
          PrunedIsShorter(friendMsg, REPLACED);
          var entry := new ByteVector(pruned.value);
          AppendPresence(entry, t, appid);
          AppendBytesField(out, FIELD_FRIENDS, entry.bytes);
          continue;
        }
        out.Insert(body[fieldStart..ptr]);
        continue;
      }
      out.Insert(body[fieldStart..ptr]);
    }
    PatchTurnEnd(body, t, appid, out.bytes, flags);
    var status := NewFlags(t, appid, FlagsOrZero(flags));
    StatusFieldBytes(t, appid, flags);
    assert out.bytes + [] == out.bytes;
    if flags.Some? || status != 0 {
      AppendVarintField(out, FIELD_STATUS_FLAGS, status);
    }
    return true, Some(out.bytes);
  }

  lemma StatusFieldBytes(t: Tracker, appid: u32, before: Option<u64>)
    ensures var v := NewFlags(t, appid, FlagsOrZero(before));
            Flatten(StatusField(t, appid, before)) ==
            if before.Some? || v != 0 then VarintField(FIELD_STATUS_FLAGS, v).raw else []
  {
    hide NewFlags, VarintField, Flatten;
    FlattenSmall(VarintField(FIELD_STATUS_FLAGS, NewFlags(t, appid, FlagsOrZero(before))));
  }

  lemma StatusBytes(fs: seq<Field>, t: Tracker, appid: u32, before: Option<u64>)
    ensures Flatten(fs + StatusField(t, appid, before)) == Flatten(fs) + Flatten(StatusField(t, appid, before))
    ensures var v := NewFlags(t, appid, FlagsOrZero(before));
            Flatten(fs + StatusField(t, appid, before)) ==
            if before.Some? || v != 0 then Flatten(fs) + VarintField(FIELD_STATUS_FLAGS, v).raw else Flatten(fs)
  {
    hide NewFlags, VarintField, Flatten;
    FlattenAppend(fs, StatusField(t, appid, before));
    StatusFieldBytes(t, appid, before);
    assert Flatten(fs) + [] == Flatten(fs);
  }

  lemma {:induction false} WithoutIsShorter(fs: seq<Field>, remove: set<u32>)
    ensures |Flatten(Without(fs, remove))| <= |Flatten(fs)|
  {
    if fs != [] {
      WithoutIsShorter(fs[1..], remove);
      if fs[0].Number() !in remove {
        assert ([fs[0]] + Without(fs[1..], remove))[1..] == Without(fs[1..], remove);
      }
    }
  }

  lemma PrunedIsShorter(s: seq<byte>, remove: set<u32>)
    ensures Pruned(s, remove).Some? ==> |Pruned(s, remove).value| <= |s|
  {
    FlattenOfFields(s, true);
    WithoutIsShorter(Fields(s, true), remove);
  }
}
