/** Where the laws of patching end: messages whose friends entries are not delimited, and flags above 32 bits. */
module PersonaLimits {
  import opened Words
  import opened Varints
  import opened Messages
  import opened ProtoFields
  import opened PersonaState
  import opened PersonaLaws

  // ---- what patching leaves alone --------------------------------------------------------------------

  /** The fields that are neither status flags nor an entry of the local user. */
  function Others(fs: seq<Field>, t: Tracker): seq<Field> {
    if fs == [] then []
    else
      var last := fs[|fs| - 1];
      var front := Others(fs[..|fs| - 1], t);
      if last.Number() == FIELD_STATUS_FLAGS || IsSelf(last, t) then front else front + [last]
  }

  lemma OthersSnoc(fs: seq<Field>, f: Field, t: Tracker)
    ensures Others(fs + [f], t) ==
            if f.Number() == FIELD_STATUS_FLAGS || IsSelf(f, t) then Others(fs, t) else Others(fs, t) + [f]
  {
    hide IsSelf;
    assert (fs + [f])[..|fs|] == fs;
  }

  lemma {:induction false} OthersAppend(a: seq<Field>, b: seq<Field>, t: Tracker)
    ensures Others(a + b, t) == Others(a, t) + Others(b, t)
  {
    hide IsSelf, Others;
    if b == [] {
      assert a + b == a;
      NoOthers(t);
      assert Others(a, t) + [] == Others(a, t);
    } else {
      var front, last := b[..|b| - 1], b[|b| - 1];
      OthersAppend(a, front, t);
      assert a + b == a + front + [last] && b == front + [last];
      OthersSnoc(a + front, last, t);
      OthersSnoc(front, last, t);
      Reassociate(Others(a, t), Others(front, t), [last]);
    }
  }

  lemma NoOthers(t: Tracker)
    ensures Others([], t) == []
  {
  }

  lemma OthersOfOne(f: Field, t: Tracker)
    ensures Others([], t) == []
    ensures Others([f], t) == if f.Number() == FIELD_STATUS_FLAGS || IsSelf(f, t) then [] else [f]
  {
    hide IsSelf;
    OthersSnoc([], f, t);
    assert [] + [f] == [f];
  }

  /** The field `f` at the front of `s` is rewritten as an own entry although its own content is none. */
  predicate IsTaken(s: seq<byte>, f: Field, t: Tracker)
    requires f.head <= |s|
  {
    && f.Number() == FIELD_FRIENDS && EntrySpan(s, f.head).Some? && NamesSelf(EntrySpan(s, f.head).value, t)
    && !IsSelf(f, t)
  }

  /** No friends field is taken for an own entry that it is not. */
  predicate NoneTaken(s: seq<byte>, t: Tracker)
    decreases |s|
  {
    match ParseField(s, true)
    case None => true
    case Some(f) => !IsTaken(s, f, t) && NoneTaken(s[|f.raw|..], t)
  }

  /** What is written for one field. */
  lemma TurnedOne(s: seq<byte>, f: Field, t: Tracker, appid: u32) returns (own: seq<Field>)
    requires ParseField(s, true) == Some(f) && f.head <= |s| && ValidField(f, true)
    requires Turned(s, f, t, appid).Some? && |Flatten(Presence(t, appid))| < TWO_63
    ensures ValidFields(own, true) && Turned(s, f, t, appid) == Some(Flatten(own))
    ensures Others(own, t) == if IsTaken(s, f, t) then [] else Others([f], t)
    ensures IsTaken(s, f, t) ==> Others([f], t) == [f]
  {
    hide ParseField, EntrySpan, NamesSelf, Announced, BytesField, Flatten, Presence, Others, IsSelf;
    OthersOfOne(f, t);
    FlattenSmall(f);
    if f.Number() == FIELD_STATUS_FLAGS {
      own := [];
    } else if f.Number() != FIELD_FRIENDS || !NamesSelf(EntrySpan(s, f.head).value, t) {
      own := [f];
      FriendIsNoStatus(s, f, t);
    } else {
      var entry := EntrySpan(s, f.head).value;
      SpanIsShort(s, f.head);
      var g := AnnouncedField(entry, t, appid);
      FlattenSmall(g);
      OthersOfOne(g, t);
      own := [g];
      TakenOrSelf(s, f, t);
    }
  }

  lemma FriendIsNoStatus(s: seq<byte>, f: Field, t: Tracker)
    requires f.head <= |s| && (f.Number() != FIELD_FRIENDS ||
             (EntrySpan(s, f.head).Some? && !NamesSelf(EntrySpan(s, f.head).value, t)))
    ensures !IsTaken(s, f, t)
  {
    hide EntrySpan, NamesSelf, IsSelf;
  }

  lemma TakenOrSelf(s: seq<byte>, f: Field, t: Tracker)
    requires f.head <= |s| && f.Number() == FIELD_FRIENDS && EntrySpan(s, f.head).Some?
    requires NamesSelf(EntrySpan(s, f.head).value, t)
    ensures IsTaken(s, f, t) <==> !IsSelf(f, t)
  {
    hide EntrySpan, NamesSelf, IsSelf;
  }

  lemma SpanIsShort(s: seq<byte>, head: nat)
    requires head <= |s| && EntrySpan(s, head).Some?
    ensures |EntrySpan(s, head).value| < TWO_32
  {
    hide Decode;
  }

  /** The field written for an entry of the local user names the local user again. */
  lemma AnnouncedField(entry: seq<byte>, t: Tracker, appid: u32) returns (g: Field)
    requires NamesSelf(entry, t) && Announced(entry, t, appid).Some?
    requires |entry| < TWO_32 && |Flatten(Presence(t, appid))| < TWO_63
    ensures g == BytesField(FIELD_FRIENDS, Announced(entry, t, appid).value)
    ensures ValidField(g, true) && IsSelf(g, t)
  {
    hide ParseField, Fields, WellFormed, Decode, BytesField, GetScalar, Presence, Flatten;
    PrunedFields(entry, REPLACED);
    PrunedIsShorter(entry, REPLACED);
    var announced := Announced(entry, t, appid).value;
    g := BytesField(FIELD_FRIENDS, announced);
    BytesFieldIsValid(FIELD_FRIENDS, announced, true);
    ValidFieldShape(g, true);
    EntryScalars(entry, t, appid, FRIEND_ID);
  }

  /** What is written for all fields, and what of it is neither status flags nor own entry. */
  lemma {:induction false} TurnedFields(s: seq<byte>, t: Tracker, appid: u32) returns (gs: seq<Field>)
    requires TurnedAll(s, t, appid).Some? && |Flatten(Presence(t, appid))| < TWO_63
    ensures ValidFields(gs, true) && TurnedAll(s, t, appid) == Some(Flatten(gs))
    ensures NoneTaken(s, t) ==> Others(gs, t) == Others(Fields(s, true), t)
    ensures |Others(gs, t)| <= |Others(Fields(s, true), t)|
    ensures !NoneTaken(s, t) ==> |Others(gs, t)| < |Others(Fields(s, true), t)|
    decreases |s|
  {
    hide ParseField, Turned, Flatten, Others, IsTaken, IsSelf, Presence;
    if s == [] {
      gs := [];
      EmptyHasNoField(true);
      FlattenSmall(Field(0, 0, []));
    } else {
      var f := ParseField(s, true).value;
      FrontField(s, f, true);
      var rest := s[|f.raw|..];
      var own := TurnedOne(s, f, t, appid);
      var later := TurnedFields(rest, t, appid);
      gs := own + later;
      FlattenAppend(own, later);
      OthersAppend(own, later, t);
      OthersAppend([f], Fields(rest, true), t);
    }
  }

  /**
    * Every other field and every other friend keeps its bytes and its place among them if and only if no friends
    * field is taken for an own entry that it is not: for every body the patcher stays inside of and does not reject.
    */
  lemma OthersUntouchedIff(body: seq<byte>, t: Tracker, appid: u32)
    requires StaysInside(body, t) && Patched(body, t, appid).Some? && |Flatten(Presence(t, appid))| < TWO_63
    ensures Others(Fields(Patched(body, t, appid).value, true), t) == Others(Fields(body, true), t) <==>
            NoneTaken(body, t)
  {
    hide Fields, WellFormed, TurnedAll, StaysInside, NoneTaken, Others, Presence, Flatten, StatusFlags, StatusField;
    var gs := TurnedFields(body, t, appid);
    StatusBytes(gs, t, appid, StatusFlags(body));
    var status := StatusField(t, appid, StatusFlags(body));
    StatusIsNoOther(t, appid, StatusFlags(body));
    OthersAppend(gs, status, t);
    assert Others(gs, t) + [] == Others(gs, t);
    FlattenIsWellFormed(gs + status, true);
  }

  lemma StatusIsNoOther(t: Tracker, appid: u32, before: Option<u64>)
    ensures ValidFields(StatusField(t, appid, before), true) && Others(StatusField(t, appid, before), t) == []
  {
    hide VarintField, NewFlags, IsSelf, Others, ParseField;
    var v := NewFlags(t, appid, FlagsOrZero(before));
    VarintFieldIsValid(FIELD_STATUS_FLAGS, v, true);
    OthersOfOne(VarintField(FIELD_STATUS_FLAGS, v), t);
  }

  /** In particular when the friends entries are delimited. */
  lemma OthersAreUntouched(body: seq<byte>, t: Tracker, appid: u32)
    requires Delimited(body) && Patched(body, t, appid).Some? && |Flatten(Presence(t, appid))| < TWO_63
    ensures Others(Fields(Patched(body, t, appid).value, true), t) == Others(Fields(body, true), t)
  {
    hide Fields, Delimited, StaysInside, Patched, NoneTaken, Others, Presence, Flatten;
    PatchedIsFieldwise(body, t, appid);
    DelimitedTakesNone(body, t);
    OthersUntouchedIff(body, t, appid);
  }

  lemma {:induction false} DelimitedTakesNone(s: seq<byte>, t: Tracker)
    requires Delimited(s)
    ensures NoneTaken(s, t)
    decreases |s|
  {
    hide ParseField, Delimited, IsDelimited, EntrySpan, NamesSelf, Fields;
    match ParseField(s, true)
    case None =>
    case Some(f) =>
      RestDelimited(s, f);
      TurnedField(s, f, t, 0);
      DelimitedTakesNone(s[|f.raw|..], t);
  }

  // ---- which messages are patched -------------------------------------------------------------------

  /** A length-delimited friends entry that names the local user. */
  predicate IsOwnEntry(f: Field, t: Tracker) {
    && f.Number() == 2 && f.Wire() == 2 && f.head <= |f.raw|
    && GetScalar(Content(f), 1).Some? && GetScalar(Content(f), 1).value.value == t.self
  }

  /** The program patches only messages that hold one. */
  predicate HoldsOwnEntry(fs: seq<Field>, t: Tracker) {
    exists i :: 0 <= i < |fs| && IsOwnEntry(fs[i], t)
  }

  lemma HoldsAppend(a: seq<Field>, b: seq<Field>, t: Tracker)
    ensures HoldsOwnEntry(a + b, t) <==> HoldsOwnEntry(a, t) || HoldsOwnEntry(b, t)
  {
    hide IsOwnEntry;
    var all := a + b;
    if HoldsOwnEntry(a, t) {
      var i :| 0 <= i < |a| && IsOwnEntry(a[i], t);
      assert IsOwnEntry(all[i], t);
    }
    if HoldsOwnEntry(b, t) {
      var i :| 0 <= i < |b| && IsOwnEntry(b[i], t);
      assert IsOwnEntry(all[|a| + i], t);
    }
  }

  lemma HoldsOne(f: Field, t: Tracker)
    ensures HoldsOwnEntry([f], t) <==> IsOwnEntry(f, t)
    ensures !HoldsOwnEntry([], t)
  {
    hide IsOwnEntry;
    if IsOwnEntry(f, t) {
      assert IsOwnEntry([f][0], t);
    }
  }

  /** Whether the message holds an own entry in front of any malformed field. */
  method SelfPresent(body: seq<byte>, t: Tracker) returns (present: bool)
    requires |body| < TWO_32
    ensures present <==> HoldsOwnEntry(Fields(body, true), t)
  {
    hide Fields, WellFormed, ParseField, Decode, PayloadLength, HoldsOwnEntry, GetScalar, Content;
    var ptr := 0;
    ghost var done: seq<Field> := [];
    CursorStart(body, true);
    HoldsOne(Field(0, 0, []), t);
    while ptr < |body|
      invariant Cursor(body, ptr, done, true) && !HoldsOwnEntry(done, t)
    {
      StepOverField(body, ptr, true);
      CursorStep(body, ptr, done, true);
      ghost var f := ParseField(body[ptr..], true);
      if f.Some? {
        HoldsOne(f.value, t);
        HoldsAppend(done, [f.value], t);
        HoldsAppend(done + [f.value], Fields(body[ptr + |f.value.raw|..], true), t);
      }
      var ok, next, field, wire := ReadTag(body, ptr);
      if !ok {
        return false;
      }
      if field == FIELD_FRIENDS && wire == WIRE_LENGTH_DELIM {
        if f.Some? {
          ghost var at, end := ContentInPlace(body, ptr, f.value, true);
        }
        var start := next;
        var len;
        ok, next, len := ReadVarint(body, next);
        DelimitedLength(body[start..]);
        if !ok || len > |body| - next {
          return false;
        }
        var fid := GetScalarField(body[next..next + len], FRIEND_ID);
        if fid.Some? && fid.value.value == t.self {
          return true;
        }
        done := done + [f.value];
        ptr := next + len;
        continue;
      }
      ok, next := SkipPayload(body, next, wire);
      if !ok {
        return false;
      }
      done := done + [f.value];
      ptr := next;
    }
    CursorStep(body, ptr, done, true);
    EmptyHasNoField(true);
    return false;
  }

  lemma DelimitedLength(s: seq<byte>)
    ensures var len := Decode(s);
            PayloadLength(s, WIRE_LENGTH_DELIM) ==
            if len.ok && len.value <= |s| - len.used then Some(len.used + len.value) else None
  {
    hide Decode;
  }

  // ---- messages that hold an own entry ----------------------------------------------------------------

  /** The smallest friends entry of the local user. */
  function Own(t: Tracker): Field {
    BytesField(FIELD_FRIENDS, Fixed64Field(1, t.self).raw)
  }

  lemma OwnIsValid(t: Tracker)
    ensures ValidField(Own(t), true) && 0 < Own(t).head <= |Own(t).raw| < 40
    ensures Own(t).Number() == FIELD_FRIENDS && Content(Own(t)) == Fixed64Field(1, t.self).raw
    ensures IsDelimited(Own(t)) && IsOwnEntry(Own(t), t) && IsSelf(Own(t), t)
  {
    hide ParseField, Encode, Fixed64Field, NamesSelf, Content, Decode, BytesField, Announced;
    var g := Fixed64Field(1, t.self);
    NineBytes(t);
    BytesFieldIsValid(FIELD_FRIENDS, g.raw, true);
    ValidFieldShape(Own(t), true);
    OwnLength(g.raw);
    OwnEntryKept(t, 0);
    NamesSelfIff(g.raw, t);
  }

  lemma NamesSelfIff(entry: seq<byte>, t: Tracker)
    ensures NamesSelf(entry, t) <==> GetScalar(entry, 1).Some? && GetScalar(entry, 1).value.value == t.self
  {
    hide GetScalar;
  }

  lemma OwnLength(entry: seq<byte>)
    requires |entry| == 9
    ensures |BytesField(FIELD_FRIENDS, entry).raw| < 40
  {
    hide Encode;
    EncodeFits(9);
    EncodeFits(8 * FIELD_FRIENDS + WIRE_LENGTH_DELIM);
  }

  /** What patching makes of an own entry in front of anything. */
  lemma OwnInFront(tail: seq<byte>, t: Tracker, appid: u32)
    ensures var body := Own(t).raw + tail;
            && (WellFormed(body, true) <==> WellFormed(tail, true))
            && Fields(body, true) == [Own(t)] + Fields(tail, true) && HoldsOwnEntry(Fields(body, true), t)
            && (StaysInside(body, t) <==> StaysInside(tail, t))
            && StatusFlags(body) == StatusFlags(tail) && (NoneTaken(body, t) <==> NoneTaken(tail, t))
            && TurnedAll(body, t, appid) ==
               Joined(Some(BytesField(FIELD_FRIENDS, Fixed64Field(1, t.self).raw + Flatten(Presence(t, appid))).raw),
                      TurnedAll(tail, t, appid))
  {
    hide ParseField, Decode, Fields, WellFormed, BytesField, Fixed64Field, EntrySpan, NamesSelf, Presence, Flatten,
         Content, HoldsOwnEntry, IsSelf, IsDelimited, Announced, Own, Turned;
    var own := Own(t);
    var body := own.raw + tail;
    OwnIsValid(t);
    FieldsOfCons(own, tail, true);
    FieldIsLocal(own.raw, body, true);
    assert body[|own.raw|..] == tail;
    HoldsOne(own, t);
    HoldsAppend([own], Fields(tail, true), t);
    OwnTurned(body, t, appid);
    OwnTurned(body, t, 0);
  }

  lemma OwnTurned(s: seq<byte>, t: Tracker, appid: u32)
    requires ParseField(s, true) == Some(Own(t))
    ensures Own(t).head <= |s| && EntrySpan(s, Own(t).head).Some? && !IsTaken(s, Own(t), t)
    ensures Turned(s, Own(t), t, appid) ==
            Some(BytesField(FIELD_FRIENDS, Fixed64Field(1, t.self).raw + Flatten(Presence(t, appid))).raw)
  {
    hide ParseField, Decode, BytesField, Fixed64Field, EntrySpan, NamesSelf, Presence, Flatten, Content, IsSelf,
         IsDelimited, Announced, Own, Turned;
    OwnIsValid(t);
    TurnedField(s, Own(t), t, appid);
    OwnEntryKept(t, appid);
    TurnedOwn(s, Own(t), Fixed64Field(1, t.self).raw, t, appid);
  }

  // ---- friends entries that are not delimited -------------------------------------------------------

  /** A status field of eight bytes and an empty field behind a friends field that is a mere number. */
  function Undelimited(t: Tracker): seq<byte> {
    VarintField(FIELD_FRIENDS, 10).raw + Fixed64Field(1, t.self).raw + BytesField(3, []).raw
  }

  /**
    * The number is taken for a length and the ten bytes behind it, which cut a field off, for an entry of the local
    * user: the patcher rejects a message that is well-formed and whose only own entry is intact.
    */
  lemma NumberTakenForEntry(t: Tracker, appid: u32)
    ensures var body := Own(t).raw + Undelimited(t);
            && HoldsOwnEntry(Fields(body, true), t) && WellFormed(body, true) && StaysInside(body, t)
            && NoneBroken(Fields(body, true), t) && Patched(body, t, appid) == None
  {
    hide Fields, WellFormed, TurnedAll, StaysInside, HoldsOwnEntry, NoneTaken, StatusFlags, Own, Undelimited,
         NoneBroken, IsBrokenSelf;
    OwnInFront(Undelimited(t), t, appid);
    RejectedTail(t, appid);
    OwnNotBroken(t);
    UndelimitedFields(t);
    assert forall i :: 0 <= i < |[Own(t)] + Fields(Undelimited(t), true)| ==>
      !IsBrokenSelf(([Own(t)] + Fields(Undelimited(t), true))[i], t);
    AllIntact([Own(t)] + Fields(Undelimited(t), true), t);
  }

  lemma AllIntact(fs: seq<Field>, t: Tracker)
    requires forall i :: 0 <= i < |fs| ==> !IsBrokenSelf(fs[i], t)
    ensures NoneBroken(fs, t)
  {
    hide IsBrokenSelf;
  }

  lemma RejectedTail(t: Tracker, appid: u32)
    ensures var body := Undelimited(t);
            WellFormed(body, true) && StaysInside(body, t) && TurnedAll(body, t, appid) == None
  {
    hide ParseField, Decode, Fields, WellFormed, Encode, VarintField, Fixed64Field, BytesField, NamesSelf, EntrySpan,
         TurnedAll, StaysInside, Turned, FriendsDelimited;
    var f := VarintField(FIELD_FRIENDS, 10);
    var body := Undelimited(t);
    UndelimitedFields(t);
    UndelimitedSpan(t);
    CutOffEntry(t);
    TurnedFailsIff(body, f, t, appid);
    TurnedFailsIff(body, f, t, 0);
    FailsInFront(body, f, t, appid);
  }

  lemma FailsInFront(s: seq<byte>, f: Field, t: Tracker, appid: u32)
    requires s != [] && ParseField(s, true) == Some(f) && Turned(s, f, t, appid) == None
    requires f.Number() == FIELD_FRIENDS && EntrySpan(s, f.head).Some? && Turned(s, f, t, 0) == None
    ensures TurnedAll(s, t, appid) == None && StaysInside(s, t)
  {
    hide ParseField, Turned, EntrySpan;
  }

  lemma UndelimitedFields(t: Tracker)
    ensures var f, body := VarintField(FIELD_FRIENDS, 10), Undelimited(t);
            && WellFormed(body, true) && ParseField(body, true) == Some(f) && body != []
            && f.head <= |body| && f.Number() == FIELD_FRIENDS && f.Wire() == WIRE_VARINT
            && Fields(body, true) == [f, Fixed64Field(1, t.self), BytesField(3, [])]
            && (forall i :: 0 <= i < 3 ==> !IsBrokenSelf(Fields(body, true)[i], t))
  {
    hide ParseField, Decode, Fields, WellFormed, Encode, VarintField, Fixed64Field, BytesField, IsBrokenSelf;
    var f, g, h := VarintField(FIELD_FRIENDS, 10), Fixed64Field(1, t.self), BytesField(3, []);
    VarintFieldIsValid(FIELD_FRIENDS, 10, true);
    Fixed64FieldIsValid(1, t.self, true);
    BytesFieldIsValid(3, [], true);
    FieldsOfCons(h, [], true);
    EmptyIsWellFormed(true);
    assert h.raw + [] == h.raw;
    FieldsOfCons(g, h.raw, true);
    FieldsOfCons(f, g.raw + h.raw, true);
    assert f.raw + (g.raw + h.raw) == Undelimited(t);
    FieldIsLocal(f.raw, Undelimited(t), true);
    ValidFieldShape(f, true);
    EmptyIsWellFormed(true);
    assert [f] + ([g] + ([h] + [])) == [f, g, h];
    NumberNotBroken(f, t);
    NotFriendNotBroken(g, t);
    NotFriendNotBroken(h, t);
  }

  lemma NotFriendNotBroken(f: Field, t: Tracker)
    requires f.Number() != FIELD_FRIENDS
    ensures !IsBrokenSelf(f, t)
  {
  }

  /** A number has no content, so it names nobody. */
  lemma NumberNotBroken(f: Field, t: Tracker)
    requires ValidField(f, true) && f.Wire() == WIRE_VARINT
    ensures !IsSelf(f, t) && !IsBrokenSelf(f, t)
  {
    hide ParseField, Decode, Fields, WellFormed;
    ValidFieldShape(f, true);
    NumberIsAll(f);
    EmptyIsWellFormed(true);
    assert f.head <= |f.raw| ==> Content(f) == [];
  }

  lemma NumberIsAll(f: Field)
    requires ValidField(f, true) && f.Wire() == WIRE_VARINT
    ensures f.head <= |f.raw| && Decode(f.raw[f.head..]).used == |f.raw| - f.head
  {
    hide Decode;
  }

  lemma OwnNotBroken(t: Tracker)
    ensures !IsBrokenSelf(Own(t), t)
  {
    hide ParseField, Fields, WellFormed, Own, IsSelf, Fixed64Field, Content;
    OwnIsValid(t);
    var g := Fixed64Field(1, t.self);
    Fixed64FieldIsValid(1, t.self, true);
    FieldsOfCons(g, [], true);
    EmptyIsWellFormed(true);
    assert g.raw + [] == g.raw;
  }

  lemma UndelimitedBytes(t: Tracker)
    ensures VarintField(FIELD_FRIENDS, 10).raw == [0x10, 10] && VarintField(FIELD_FRIENDS, 10).head == 1
    ensures |Fixed64Field(1, t.self).raw| == 9 && BytesField(3, []).raw == [0x1A, 0]
  {
    assert Encode(0x10) == [0x10] && Encode(10) == [10] && Encode(9) == [9];
    assert Encode(0x1A) == [0x1A] && Encode(0) == [0];
  }

  lemma UndelimitedSpan(t: Tracker)
    ensures EntrySpan(Undelimited(t), VarintField(FIELD_FRIENDS, 10).head) ==
            Some(Fixed64Field(1, t.self).raw + [0x1A])
  {
    hide Decode, Encode, VarintField, Fixed64Field, BytesField;
    UndelimitedBytes(t);
    var g, body := Fixed64Field(1, t.self).raw, Undelimited(t);
    var rest := g + BytesField(3, []).raw;
    ReadsTen(rest);
    assert body[1..] == [10] + rest;
    assert body[2..12] == g + [0x1A];
  }

  lemma ReadsTen(rest: seq<byte>)
    ensures Decode([10] + rest) == Varint(true, 10, 1)
  {
    hide Decode;
    assert Encode(10) == [10];
    RoundTrip(10, rest);
  }

  lemma CutOffEntry(t: Tracker)
    ensures var entry := Fixed64Field(1, t.self).raw + [0x1A];
            NamesSelf(entry, t) && !WellFormed(entry, true)
  {
    hide ParseField, Decode, Fields, WellFormed, Encode, Fixed64Field, ScalarOf;
    var g := Fixed64Field(1, t.self);
    Fixed64FieldIsValid(1, t.self, true);
    ValidFieldShape(g, true);
    FieldsOfCons(g, [0x1A], true);
    LoneTag();
    assert [g] + [] == [] + [g];
    LastScalarSnoc([], g, FRIEND_ID);
  }

  lemma LoneTag()
    ensures var s: seq<byte> := [0x1A]; Fields(s, true) == [] && !WellFormed(s, true)
  {
    var s: seq<byte> := [0x1A];
    assert s[1..] == [];
    ReadsLoneTag();
    ReadsNothing();
  }

  lemma ReadsNothing()
    ensures !Decode([]).ok
  {
  }

  lemma ReadsLoneTag()
    ensures var s: seq<byte> := [0x1A]; Decode(s) == Varint(true, 0x1A, 1)
  {
    hide Decode;
    assert Encode(0x1A) == [0x1A];
    RoundTrip(0x1A, []);
    assert Encode(0x1A) + [] == Encode(0x1A);
  }

  /**
    * The number nine in front of a status field of eight bytes: those nine bytes are taken for an entry of the local
    * user, and a friends field with that entry is written in place of the number, which is no own entry.
    */
  lemma NumberRewritten(t: Tracker)
    ensures var f, g := VarintField(FIELD_FRIENDS, 9), Fixed64Field(1, t.self);
            var body := Own(t).raw + (f.raw + g.raw);
            && Fields(body, true) == [Own(t), f, g] && HoldsOwnEntry(Fields(body, true), t)
            && WellFormed(body, true) && StaysInside(body, t) && Patched(body, t, 0).Some?
            && Own(t).raw + Own(t).raw <= Patched(body, t, 0).value && !NoneTaken(body, t)
  {
    hide Fields, WellFormed, TurnedAll, StaysInside, HoldsOwnEntry, NoneTaken, StatusFlags, VarintField, Fixed64Field,
         StatusField, Flatten, BytesField;
    var f, g := VarintField(FIELD_FRIENDS, 9), Fixed64Field(1, t.self);
    OwnInFront(f.raw + g.raw, t, 0);
    RewrittenTail(t);
    ClearingAnnouncesNothing(t);
    assert g.raw + [] == g.raw;
    assert [Own(t)] + [f, g] == [Own(t), f, g];
  }

  lemma RewrittenTail(t: Tracker)
    ensures var f, g := VarintField(FIELD_FRIENDS, 9), Fixed64Field(1, t.self);
            var body := f.raw + g.raw;
            && WellFormed(body, true) && StaysInside(body, t) && Fields(body, true) == [f, g] && !NoneTaken(body, t)
            && TurnedAll(body, t, 0) == Some(Own(t).raw)
  {
    hide ParseField, Decode, Fields, WellFormed, Encode, VarintField, Fixed64Field, BytesField, NamesSelf, EntrySpan,
         TurnedAll, StaysInside, Turned, NoneTaken, IsSelf, Announced;
    var f, g := VarintField(FIELD_FRIENDS, 9), Fixed64Field(1, t.self);
    var body := f.raw + g.raw;
    VarintFieldIsValid(FIELD_FRIENDS, 9, true);
    Fixed64FieldIsValid(1, t.self, true);
    ValidFieldShape(f, true);
    FieldsOfCons(g, [], true);
    EmptyIsWellFormed(true);
    assert g.raw + [] == g.raw;
    FieldsOfCons(f, g.raw, true);
    FieldIsLocal(f.raw, body, true);
    EmptyIsWellFormed(true);
    assert [f] + ([g] + []) == [f, g];
    NineBytesRead(t);
    OwnEntryKept(t, 0);
    ClearingAnnouncesNothing(t);
    TurnedOwn(body, f, g.raw, t, 0);
    LoneStatus(g, t, 0);
    assert body[|f.raw|..] == g.raw;
    NumberNotBroken(f, t);
    TurnedCons(body, f, t);
  }

  lemma NineBytesRead(t: Tracker)
    ensures var f, g := VarintField(FIELD_FRIENDS, 9), Fixed64Field(1, t.self);
            f.head <= |f.raw| && EntrySpan(f.raw + g.raw, f.head) == Some(g.raw)
  {
    hide Decode, Encode, Fixed64Field;
    var f, g := VarintField(FIELD_FRIENDS, 9), Fixed64Field(1, t.self);
    NineBytes(t);
    RoundTrip(9, g.raw);
    assert (f.raw + g.raw)[1..] == [9] + g.raw;
    assert (f.raw + g.raw)[2..11] == g.raw;
  }

  lemma NineBytes(t: Tracker)
    ensures VarintField(FIELD_FRIENDS, 9).raw == [0x10, 9] && VarintField(FIELD_FRIENDS, 9).head == 1
    ensures |Fixed64Field(1, t.self).raw| == 9 && Encode(9) == [9]
  {
    assert Encode(0x10) == [0x10] && Encode(9) == [9];
  }

  lemma OwnEntryKept(t: Tracker, appid: u32)
    ensures var g := Fixed64Field(1, t.self);
            NamesSelf(g.raw, t) && Announced(g.raw, t, appid) == Some(g.raw + Flatten(Presence(t, appid)))
  {
    hide ParseField, Fields, WellFormed, Fixed64Field, ScalarOf, Flatten, Presence;
    var g := Fixed64Field(1, t.self);
    Fixed64FieldIsValid(1, t.self, true);
    ValidFieldShape(g, true);
    FlattenIsWellFormed([g], true);
    FlattenSmall(g);
    LastScalarSnoc([], g, FRIEND_ID);
    assert [] + [g] == [g];
    WithoutNone(REPLACED);
    WithoutSnoc([], g, REPLACED);
    assert [] + g.raw == g.raw;
  }

  lemma TurnedOwn(s: seq<byte>, f: Field, entry: seq<byte>, t: Tracker, appid: u32)
    requires f.head <= |s| && f.Number() == FIELD_FRIENDS && EntrySpan(s, f.head) == Some(entry)
    requires NamesSelf(entry, t) && Announced(entry, t, appid) == Some(entry + Flatten(Presence(t, appid)))
    ensures Turned(s, f, t, appid) == Some(BytesField(FIELD_FRIENDS, entry + Flatten(Presence(t, appid))).raw)
    ensures IsTaken(s, f, t) <==> !IsSelf(f, t)
  {
    hide EntrySpan, NamesSelf, Announced, BytesField, IsSelf, Flatten, Presence;
  }

  lemma LoneStatus(g: Field, t: Tracker, appid: u32)
    requires ValidField(g, true) && g.Number() == FIELD_STATUS_FLAGS
    ensures TurnedAll(g.raw, t, appid) == Some([]) && StaysInside(g.raw, t)
  {
    hide ParseField;
    ValidFieldShape(g, true);
    EmptyHasNoField(true);
    assert g.raw[|g.raw|..] == [];
    assert TurnedAll([], t, appid) == Some([]);
    assert StaysInside([], t);
    var none: seq<byte> := [];
    assert none + none == none;
    assert Turned(g.raw, g, t, appid) == Some(none);
  }

  lemma TurnedCons(s: seq<byte>, f: Field, t: Tracker)
    requires s != [] && ParseField(s, true) == Some(f) && f.head <= |s| && Turned(s, f, t, 0).Some?
    requires TurnedAll(s[|f.raw|..], t, 0) == Some([]) && StaysInside(s[|f.raw|..], t) && IsTaken(s, f, t)
    ensures TurnedAll(s, t, 0) == Turned(s, f, t, 0) && StaysInside(s, t) && !NoneTaken(s, t)
  {
    hide ParseField, Turned, EntrySpan, IsTaken;
    TurnedSpan(s, f, t, 0);
    assert Turned(s, f, t, 0).value + [] == Turned(s, f, t, 0).value;
  }

  /** The same number with nothing behind it: a well-formed message for which the entry lies beyond the body. */
  lemma NumberLeavesBody(t: Tracker)
    ensures var body := Own(t).raw + VarintField(FIELD_FRIENDS, 10).raw;
            HoldsOwnEntry(Fields(body, true), t) && WellFormed(body, true) && !StaysInside(body, t)
  {
    hide Fields, WellFormed, TurnedAll, StaysInside, HoldsOwnEntry, NoneTaken, StatusFlags, VarintField, Own;
    OwnInFront(VarintField(FIELD_FRIENDS, 10).raw, t, 0);
    LeavingTail(t);
  }

  lemma LeavingTail(t: Tracker)
    ensures var tail := VarintField(FIELD_FRIENDS, 10).raw; WellFormed(tail, true) && !StaysInside(tail, t)
  {
    hide ParseField, Decode, Fields, WellFormed, Encode, VarintField;
    var f := VarintField(FIELD_FRIENDS, 10);
    VarintFieldIsValid(FIELD_FRIENDS, 10, true);
    ValidFieldShape(f, true);
    FieldsOfCons(f, [], true);
    EmptyIsWellFormed(true);
    assert f.raw + [] == f.raw;
    UndelimitedBytes(t);
    ReadsTen([]);
    assert f.raw[1..] == [10] + [];
  }

  // ---- flags above 32 bits --------------------------------------------------------------------------

  /**
    * A message whose flags do not fit in 32 bits: taking the rich-presence flag down first loses the upper
    * half for good, so the last patch alone does not decide.
    */
  lemma UpperHalfIsLost(t: Tracker, a: u32)
    requires t.PairsOf(a) == [] && a != 0
    ensures var body := Own(t).raw + VarintField(FIELD_STATUS_FLAGS, TWO_32).raw;
            && HoldsOwnEntry(Fields(body, true), t) && StaysInside(body, t)
            && Patched(body, t, 0).Some? && Patched(body, t, a).Some?
            && Patched(Patched(body, t, a).value, t, 0) != Patched(body, t, 0)
  {
    hide ParseField, Fields, WellFormed, Presence, VarintField, Encode, StatusFlags, TurnedAll, StaysInside, Raises,
         HoldsOwnEntry, NoneTaken, StatusField, FriendsDelimited, IsDelimited, Own, Flatten, BytesField,
         LastPatchDecides;
    var f := VarintField(FIELD_STATUS_FLAGS, TWO_32);
    var body := Own(t).raw + f.raw;
    OwnIsValid(t);
    VarintFieldIsValid(FIELD_STATUS_FLAGS, TWO_32, true);
    StatusOfField(TWO_32);
    OwnInFront(f.raw, t, 0);
    OwnInFront(f.raw, t, a);
    LoneStatus(f, t, 0);
    LoneStatus(f, t, a);
    FieldsOfCons(f, [], true);
    EmptyIsWellFormed(true);
    assert f.raw + [] == f.raw && [f] + [] == [f];
    StatusIsDelimited(f);
    OneDelimited(Own(t));
    DelimitedSnoc([Own(t)], f);
    ShortField(TWO_32);
    ClearingAnnouncesNothing(t);
    ShortPresence(t, a);
    ClearedThenRaised(t, a);
    hide Patched;
    PatchTwice(body, t, a, 0);
  }

  lemma OneDelimited(f: Field)
    requires IsDelimited(f)
    ensures FriendsDelimited([f])
  {
  }

  lemma ClearedThenRaised(t: Tracker, a: u32)
    requires t.PairsOf(a) == [] && a != 0
    ensures !LastPatchDecides(Some(TWO_32), t, a, 0)
  {
  }

  lemma ShortPresence(t: Tracker, a: u32)
    requires t.PairsOf(a) == [] && a != 0
    ensures |Flatten(Presence(t, a))| <= 1000
  {
    hide Encode, Flatten, VarintField, Fixed64Field;
    var f, g := VarintField(FRIEND_GAME_PLAYED_APP_ID, a), Fixed64Field(FRIEND_GAME_ID, a);
    TwoFields(f, g);
    assert Presence(t, a) == [f, g];
    ShortFields(a);
  }

  lemma ShortFields(a: u32)
    ensures |VarintField(FRIEND_GAME_PLAYED_APP_ID, a).raw| + |Fixed64Field(FRIEND_GAME_ID, a).raw| <= 1000
  {
    hide Encode;
    EncodeFits(a);
    EncodeFits(8 * FRIEND_GAME_PLAYED_APP_ID + WIRE_VARINT);
    EncodeFits(8 * FRIEND_GAME_ID + WIRE_FIXED64);
  }

  lemma ShortField(v: u64)
    ensures |VarintField(FIELD_STATUS_FLAGS, v).raw| <= 1 + MAX_VARINT
  {
    EncodeFits(v);
  }

  lemma ClearingAnnouncesNothing(t: Tracker)
    ensures Flatten(Presence(t, 0)) == []
  {
  }
}
