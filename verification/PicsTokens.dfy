/** Adding configured access tokens to the app entries of a product-info request. */
module PicsTokens {
  import opened Words
  import opened Varints
  import opened Messages
  import opened ProtoFields

  const APP_FIELD_TAG: byte := 0x0A
  const ACCESS_TOKEN_TAG: byte := 0x10
  const MAX_INPUT_BYTES: nat := 0x10_0000

  // ---- what patching means on field sequences -----------------------------------

  predicate CarriesVarint(f: Field, number: u32) {
    f.head <= |f.raw| && f.Wire() == WIRE_VARINT && f.Number() == number
  }

  /** The last varint with the wanted number; fields of other wire types do not count. */
  function LastVarint(fs: seq<Field>, number: u32): Option<u64> {
    if fs == [] then None
    else
      var last := fs[|fs| - 1];
      if CarriesVarint(last, number) then Some(Decode(last.Payload()).value)
      else LastVarint(fs[..|fs| - 1], number)
  }

  /** The app an entry is for; zero when it does not say. */
  function AppOf(fs: seq<Field>): u32 {
    match LastVarint(fs, 1)
    case Some(v) => v % TWO_32
    case None => 0
  }

  /** The token an entry lacks; none when it is malformed, unconfigured, or already carries the right one. */
  function Missing(entry: seq<byte>, token: u32 -> u64): Option<u64> {
    if !WellFormed(entry, false) then None
    else
      var fs := Fields(entry, false);
      if AppOf(fs) == 0 || token(AppOf(fs)) == 0 || LastVarint(fs, 2) == Some(token(AppOf(fs))) then None
      else Some(token(AppOf(fs)))
  }

  function WithToken(entry: seq<byte>, value: u64): seq<byte> {
    entry + VarintField(2, value).raw
  }

  predicate IsAppEntry(f: Field) {
    f.tag == APP_FIELD_TAG && f.head <= |f.raw|
  }

  function PatchField(f: Field, token: u32 -> u64): Field {
    if IsAppEntry(f) && Missing(Content(f), token).Some?
    then BytesField(1, WithToken(Content(f), Missing(Content(f), token).value))
    else f
  }

  function PatchAll(fs: seq<Field>, token: u32 -> u64): (r: seq<Field>)
    ensures |r| == |fs|
    ensures forall i :: 0 <= i < |fs| ==> r[i] == PatchField(fs[i], token)
  {
    seq(|fs|, i requires 0 <= i < |fs| => PatchField(fs[i], token))
  }

  predicate AnyMissing(fs: seq<Field>, token: u32 -> u64) {
    exists i :: 0 <= i < |fs| && IsAppEntry(fs[i]) && Missing(Content(fs[i]), token).Some?
  }

  /** The patched request; none when there is nothing to change or the request is not acceptable. */
  function Patched(body: seq<byte>, token: u32 -> u64): Option<seq<byte>> {
    if 0 < |body| <= MAX_INPUT_BYTES && WellFormed(body, false) && AnyMissing(Fields(body, false), token)
    then Some(Flatten(PatchAll(Fields(body, false), token)))
    else None
  }

  // ---- the parsers ------------------------------------------------------------------

  lemma LastVarintSnoc(fs: seq<Field>, f: Field, number: u32)
    ensures LastVarint(fs + [f], number) ==
            if CarriesVarint(f, number) then Some(Decode(f.Payload()).value) else LastVarint(fs, number)
  {
    assert (fs + [f])[..|fs|] == fs;
  }

  /** What the entry parser knows when `done` lies behind it. */
  ghost predicate EntryTurn(data: seq<byte>, ptr: nat, done: seq<Field>,
                            appId: Option<u64>, current: Option<u64>) {
    && Cursor(data, ptr, done, false)
    && appId == LastVarint(done, 1)
    && current == LastVarint(done, 2)
  }

  lemma EntryTurnStart(data: seq<byte>)
    ensures EntryTurn(data, 0, [], None, None)
  {
    hide Cursor;
    CursorStart(data, false);
  }

  lemma EntryTurnStep(data: seq<byte>, ptr: nat, done: seq<Field>, appId: Option<u64>, current: Option<u64>)
    requires EntryTurn(data, ptr, done, appId, current)
    ensures match ParseField(data[ptr..], false)
            case None =>
              && (WellFormed(data, false) <==> ptr == |data|)
              && appId == LastVarint(Fields(data, false), 1) && current == LastVarint(Fields(data, false), 2)
            case Some(f) =>
              && 0 < f.head <= |f.raw|
              && var v := Decode(f.Payload()).value;
                 EntryTurn(data, ptr + |f.raw|, done + [f],
                           if f.Wire() == WIRE_VARINT && f.Number() == 1 then Some(v) else appId,
                           if f.Wire() == WIRE_VARINT && f.Number() == 2 then Some(v) else current)
  {
    hide Fields, WellFormed, ParseField, Decode, LastVarint;
    CursorStep(data, ptr, done, false);
    match ParseField(data[ptr..], false)
    case None =>
    case Some(f) =>
      LastVarintSnoc(done, f, 1);
      LastVarintSnoc(done, f, 2);
  }

  lemma WithTokenBytes(entry: seq<byte>, value: u64)
    ensures WithToken(entry, value) == entry + [ACCESS_TOKEN_TAG] + Encode(value)
  {
    assert Encode(TagOf(2, WIRE_VARINT)) == [ACCESS_TOKEN_TAG];
  }

  lemma AppFieldBytes(entry: seq<byte>)
    ensures BytesField(1, entry).raw == [APP_FIELD_TAG] + Encode(|entry|) + entry
  {
    assert Encode(TagOf(1, WIRE_LENGTH_DELIM)) == [APP_FIELD_TAG];
  }

  /** Appends the configured token to one entry when it lacks it. */
  method PatchAppEntry(data: seq<byte>, token: u32 -> u64) returns (out: Option<seq<byte>>)
    ensures match Missing(data, token)
            case None => out == None
            case Some(v) => out == Some(WithToken(data, v))
    ensures out.Some? ==> |out.value| <= |data| + 1 + MAX_VARINT
  {
    hide Fields, WellFormed, ParseField, Decode, LastVarint, EntryTurn;
    var ptr := 0;
    var appId: Option<u64> := None;
    var current: Option<u64> := None;
    ghost var done: seq<Field> := [];
    EntryTurnStart(data);
    while ptr < |data|
      invariant ptr <= |data|
      invariant EntryTurn(data, ptr, done, appId, current)
    {
      StepOverField(data, ptr, false);
      EntryTurnStep(data, ptr, done, appId, current);
      ghost var f := ParseField(data[ptr..], false);
      if f.Some? {
        ScalarInPlace(data, ptr, false);
        done := done + [f.value];
      }
      var ok, tag;
      ok, ptr, tag := ReadVarint(data, ptr);
      if !ok {
        return None;
      }
      var fieldNumber := tag / 8 % TWO_32;
      var wireType := tag % 8;
      if wireType == 0 {
        var value;
        ok, ptr, value := ReadVarint(data, ptr);
        if !ok {
          return None;
        }
        if fieldNumber == 1 {
          appId := Some(value);
        } else if fieldNumber == 2 {
          current := Some(value);
        }
      } else if wireType == 1 {
        if |data| - ptr < 8 {
          return None;
        }
        ptr := ptr + 8;
      } else if wireType == 5 {
        if |data| - ptr < 4 {
          return None;
        }
        ptr := ptr + 4;
      } else if wireType == 2 {
        var nestedLen;
        ok, ptr, nestedLen := ReadVarint(data, ptr);
        if !ok {
          return None;
        }
        if nestedLen > |data| - ptr {
          return None;
        }
        ptr := ptr + nestedLen;
      } else {
        return None;
      }
    }
    EntryTurnStep(data, ptr, done, appId, current);
    EmptyHasNoField(false);
    if appId == None || appId.value % TWO_32 == 0 {
      return None;
    }
    var desired := token(appId.value % TWO_32);
    if desired == 0 || current == Some(desired) {
      return None;
    }
    WithTokenBytes(data, desired);
    EncodeFits(desired);
    var buf := new ByteVector(data);
    buf.PushBack(ACCESS_TOKEN_TAG);
    WriteVarint(buf, desired);
    return Some(buf.bytes);
  }

  /** What the request patcher knows when `done` lies behind it. */
  ghost predicate RequestTurn(data: seq<byte>, ptr: nat, done: seq<Field>, token: u32 -> u64,
                              patched: seq<byte>, modified: bool) {
    && Cursor(data, ptr, done, false)
    && patched == Flatten(PatchAll(done, token))
    && modified == AnyMissing(done, token)
  }

  lemma RequestTurnStart(data: seq<byte>, token: u32 -> u64)
    ensures RequestTurn(data, 0, [], token, [], false)
  {
    hide Cursor;
    CursorStart(data, false);
  }

  lemma RequestTurnStep(data: seq<byte>, ptr: nat, done: seq<Field>, token: u32 -> u64,
                        patched: seq<byte>, modified: bool)
    requires RequestTurn(data, ptr, done, token, patched, modified)
    ensures match ParseField(data[ptr..], false)
            case None =>
              && (WellFormed(data, false) <==> ptr == |data|)
              && patched == Flatten(PatchAll(Fields(data, false), token))
              && modified == AnyMissing(Fields(data, false), token)
            case Some(f) =>
              && 0 < f.head <= |f.raw|
              && RequestTurn(data, ptr + |f.raw|, done + [f], token, patched + PatchField(f, token).raw,
                             modified || (IsAppEntry(f) && Missing(Content(f), token).Some?))
  {
    hide Fields, WellFormed, ParseField, Missing, Content, PatchAll, Flatten, PatchField, AnyMissing;
    CursorStep(data, ptr, done, false);
    match ParseField(data[ptr..], false)
    case None =>
    case Some(f) =>
      PatchSnoc(done, f, token);
      AnyMissingSnoc(done, f, token);
  }

  lemma PatchSnoc(fs: seq<Field>, f: Field, token: u32 -> u64)
    ensures Flatten(PatchAll(fs + [f], token)) == Flatten(PatchAll(fs, token)) + PatchField(f, token).raw
  {
    hide PatchField;
    var g := PatchField(f, token);
    assert PatchAll(fs + [f], token) == PatchAll(fs, token) + [g];
    FlattenAppend(PatchAll(fs, token), [g]);
    assert [g][1..] == [];
  }

  lemma AnyMissingSnoc(fs: seq<Field>, f: Field, token: u32 -> u64)
    ensures AnyMissing(fs + [f], token) <==>
            AnyMissing(fs, token) || (IsAppEntry(f) && Missing(Content(f), token).Some?)
  {
    hide Missing, Content;
    var all := fs + [f];
    if AnyMissing(fs, token) {
      var i :| 0 <= i < |fs| && IsAppEntry(fs[i]) && Missing(Content(fs[i]), token).Some?;
      assert all[i] == fs[i];
    }
    if IsAppEntry(f) && Missing(Content(f), token).Some? {
      assert all[|fs|] == f;
    }
  }

  /** The patch of one field whose bytes are `data[start..end]`, given what its entry lacks. */
  lemma PatchedBytes(f: Field, token: u32 -> u64)
    requires f.head <= |f.raw|
    ensures PatchField(f, token).raw ==
            if f.tag == APP_FIELD_TAG && Missing(Content(f), token).Some?
            then var e := WithToken(Content(f), Missing(Content(f), token).value);
                 [APP_FIELD_TAG] + Encode(|e|) + e
            else f.raw
  {
    hide Missing, Content, WithToken;
    if f.tag == APP_FIELD_TAG && Missing(Content(f), token).Some? {
      AppFieldBytes(WithToken(Content(f), Missing(Content(f), token).value));
    }
  }

  /** The turn of the patcher in terms of the buffer: what it appends for the field at `ptr`. */
  lemma RequestTurnInPlace(data: seq<byte>, ptr: nat, done: seq<Field>, token: u32 -> u64,
                           patched: seq<byte>, modified: bool, f: Field)
    requires RequestTurn(data, ptr, done, token, patched, modified)
    requires ptr <= |data| && ParseField(data[ptr..], false) == Some(f)
    ensures 0 < f.head <= |f.raw| && ptr + |f.raw| <= |data|
    ensures var end := ptr + |f.raw|;
            var at := ptr + f.head + Decode(data[ptr + f.head..]).used;
            if f.tag == APP_FIELD_TAG && at <= end && Missing(data[at..end], token).Some? then
              var e := WithToken(data[at..end], Missing(data[at..end], token).value);
              RequestTurn(data, end, done + [f], token, patched + ([APP_FIELD_TAG] + Encode(|e|) + e), true)
            else
              RequestTurn(data, end, done + [f], token, patched + data[ptr..end], modified)
  {
    hide ParseField, Decode, PayloadLength, RequestTurn, Missing, WithToken;
    RequestTurnStep(data, ptr, done, token, patched, modified);
    StepOverField(data, ptr, false);
    PatchedBytes(f, token);
    if f.tag == APP_FIELD_TAG {
      var at, end := ContentInPlace(data, ptr, f, false);
    }
  }

  /** Emits one length-delimited field: an app entry that lacks its token patched, any other field as it is. */
  method EmitEntry(payload: seq<byte>, tag: u64, field: seq<byte>, token: u32 -> u64, patched: ByteVector)
    returns (changed: bool)
    requires |payload| <= MAX_INPUT_BYTES
    modifies patched
    ensures changed <==> tag == APP_FIELD_TAG && Missing(payload, token).Some?
    ensures patched.bytes == old(patched.bytes) +
            if changed then
              var e := WithToken(payload, Missing(payload, token).value);
              [APP_FIELD_TAG] + Encode(|e|) + e
            else field
  {
    hide Missing, WithToken, Encode;
    if tag == APP_FIELD_TAG {
      var entry := PatchAppEntry(payload, token);
      if entry.Some? {
        patched.PushBack(APP_FIELD_TAG);
        WriteVarint(patched, |entry.value|);
        patched.Insert(entry.value);
        assert patched.bytes == old(patched.bytes) + ([APP_FIELD_TAG] + Encode(|entry.value|) + entry.value);
        return true;
      }
    }
    patched.Insert(field);
    return false;
  }

  /**
    * Patches every app entry that lacks its configured token. On success `out` holds the patched request;
    * otherwise it is untouched.
    */
  method PatchProductInfoRequest(body: seq<byte>, token: u32 -> u64, out: ByteVector) returns (changed: bool)
    modifies out
    ensures changed == Patched(body, token).Some?
    ensures out.bytes == if changed then Patched(body, token).value else old(out.bytes)
  {
    hide Fields, WellFormed, ParseField, Decode, RequestTurn, AnyMissing, PatchAll, Flatten, PatchField, Missing,
         WithToken;
    if |body| == 0 || |body| > MAX_INPUT_BYTES {
      return false;
    }
    var ptr := 0;
    var patched := new ByteVector([]);
    var modified := false;
    ghost var done: seq<Field> := [];
    RequestTurnStart(body, token);
    while ptr < |body|
      invariant ptr <= |body|
      invariant RequestTurn(body, ptr, done, token, patched.bytes, modified)
      invariant fresh(patched) && out.bytes == old(out.bytes)
    {
      StepOverField(body, ptr, false);
      ghost var f := ParseField(body[ptr..], false);
      if f.Some? {
        RequestTurnInPlace(body, ptr, done, token, patched.bytes, modified, f.value);
        done := done + [f.value];
      } else {
        RequestTurnStep(body, ptr, done, token, patched.bytes, modified);
      }
      var fieldStart := ptr;
      var ok, tag;
      ok, ptr, tag := ReadVarint(body, ptr);
      if !ok {
        return false;
      }
      var wireType := tag % 8;
      if wireType == 2 {
        var len;
        ok, ptr, len := ReadVarint(body, ptr);
        if !ok {
          return false;
        }
        if len > |body| - ptr {
          return false;
        }
        var payload := body[ptr..ptr + len];
        ptr := ptr + len;
        var fresher := EmitEntry(payload, tag, body[fieldStart..ptr], token, patched);
        modified := modified || fresher;
      } else if wireType == 0 {
        var value;
        ok, ptr, value := ReadVarint(body, ptr);
        if !ok {
          return false;
        }
        patched.Insert(body[fieldStart..ptr]);
      } else if wireType == 1 {
        if |body| - ptr < 8 {
          return false;
        }
        ptr := ptr + 8;
        patched.Insert(body[fieldStart..ptr]);
      } else if wireType == 5 {
        if |body| - ptr < 4 {
          return false;
        }
        ptr := ptr + 4;
        patched.Insert(body[fieldStart..ptr]);
      } else {
        return false;
      }
    }
    RequestTurnStep(body, ptr, done, token, patched.bytes, modified);
    EmptyHasNoField(false);
    if !modified {
      return false;
    }
    out.bytes := patched.bytes;
    return true;
  }

  // ---- what a patched request looks like ---------------------------------------------

  /** Appending a token changes neither the entry's other fields nor the app it is for. */
  lemma TokenIsLast(entry: seq<byte>, value: u64)
    requires WellFormed(entry, false)
    ensures WellFormed(WithToken(entry, value), false)
    ensures Fields(WithToken(entry, value), false) == Fields(entry, false) + [VarintField(2, value)]
    ensures AppOf(Fields(WithToken(entry, value), false)) == AppOf(Fields(entry, false))
    ensures LastVarint(Fields(WithToken(entry, value), false), 2) == Some(value)
  {
    hide Fields, WellFormed, ParseField, LastVarint;
    var f := VarintField(2, value);
    VarintFieldIsValid(2, value, false);
    FieldsOfFlatten([f], [], false);
    assert Flatten([f]) == f.raw && f.raw + [] == f.raw && [f] + Fields([], false) == [f] by {
      OneField(f);
    }
    Concatenation(entry, f.raw, false);
    EmptyIsWellFormed(false);
    LastVarintSnoc(Fields(entry, false), f, 1);
    LastVarintSnoc(Fields(entry, false), f, 2);
  }

  lemma OneField(f: Field)
    ensures Flatten([f]) == f.raw && Fields([], false) == []
  {
    assert [f][1..] == [];
    EmptyHasNoField(false);
  }

  /** A patched entry lacks nothing. */
  lemma PatchedEntryLacksNothing(entry: seq<byte>, token: u32 -> u64)
    requires Missing(entry, token).Some?
    ensures Missing(WithToken(entry, Missing(entry, token).value), token) == None
  {
    hide Fields, WellFormed, LastVarint;
    TokenIsLast(entry, Missing(entry, token).value);
  }

  /** Patching a field once is patching it for good. */
  lemma PatchFieldTwice(f: Field, token: u32 -> u64)
    requires ValidField(f, false) && |f.raw| <= MAX_INPUT_BYTES
    ensures var g := PatchField(f, token);
            && ValidField(g, false) && PatchField(g, token) == g
            && !(IsAppEntry(g) && Missing(Content(g), token).Some?)
            && (g == f || (IsAppEntry(f) && IsAppEntry(g)
                           && Missing(Content(f), token).Some?
                           && Content(g) == WithToken(Content(f), Missing(Content(f), token).value)))
  {
    hide Missing, ParseField, Decode, WithToken;
    if IsAppEntry(f) && Missing(Content(f), token).Some? {
      var v := Missing(Content(f), token).value;
      var e := WithToken(Content(f), v);
      WithTokenBytes(Content(f), v);
      EncodeFits(v);
      BytesFieldIsValid(1, e, false);
      PatchedEntryLacksNothing(Content(f), token);
    }
  }

  lemma PatchAllTwice(fs: seq<Field>, token: u32 -> u64)
    requires ValidFields(fs, false) && |Flatten(fs)| <= MAX_INPUT_BYTES
    ensures ValidFields(PatchAll(fs, token), false)
    ensures PatchAll(PatchAll(fs, token), token) == PatchAll(fs, token)
    ensures !AnyMissing(PatchAll(fs, token), token)
  {
    hide PatchField, Missing, Content, ParseField, Flatten;
    var gs := PatchAll(fs, token);
    forall i | 0 <= i < |fs|
      ensures ValidField(gs[i], false) && PatchField(gs[i], token) == gs[i]
      ensures !(IsAppEntry(gs[i]) && Missing(Content(gs[i]), token).Some?)
    {
      FieldInFlatten(fs, i);
      assert ValidField(fs[i], false);
      PatchFieldTwice(fs[i], token);
    }
  }

  /**
    * One pass reaches a fixed point: the fields of the output are the fields of the input, in order, each
    * either byte-identical or an app entry followed by the token it lacked; nothing is lacking any more, so
    * a second call on the output reports no change.
    */
  lemma OnePassIsEnough(body: seq<byte>, token: u32 -> u64)
    requires Patched(body, token).Some?
    ensures var out := Patched(body, token).value;
            && WellFormed(out, false)
            && Fields(out, false) == PatchAll(Fields(body, false), token)
            && !AnyMissing(Fields(out, false), token)
            && Patched(out, token) == None
  {
    hide Fields, WellFormed, PatchAll, AnyMissing;
    var fs := Fields(body, false);
    FieldsAreValid(body, false);
    FlattenOfFields(body, false);
    PatchAllTwice(fs, token);
    FlattenIsWellFormed(PatchAll(fs, token), false);
  }

  /** Every well-formed app entry of a patched request carries its configured token as its last token. */
  lemma EveryEntryCarriesItsToken(body: seq<byte>, token: u32 -> u64, i: nat)
    requires Patched(body, token).Some?
    ensures var gs := Fields(Patched(body, token).value, false);
            && |gs| == |Fields(body, false)|
            && (i < |gs| && IsAppEntry(gs[i]) && WellFormed(Content(gs[i]), false) ==>
                  var entry := Fields(Content(gs[i]), false);
                  AppOf(entry) != 0 && token(AppOf(entry)) != 0 ==>
                    LastVarint(entry, 2) == Some(token(AppOf(entry))))
  {
    OnePassIsEnough(body, token);
    hide Fields, WellFormed, LastVarint;
    var gs := Fields(Patched(body, token).value, false);
    if i < |gs| && IsAppEntry(gs[i]) {
      assert Missing(Content(gs[i]), token) == None;
    }
  }

  /** Field by field, patching keeps everything except the app entries that lacked their token. */
  lemma OtherFieldsKeepTheirBytes(body: seq<byte>, token: u32 -> u64, i: nat)
    requires Patched(body, token).Some? && i < |Fields(body, false)|
    ensures var f := Fields(body, false)[i];
            var g := Fields(Patched(body, token).value, false);
            && i < |g|
            && (g[i] == f || (IsAppEntry(f) && IsAppEntry(g[i])
                              && Missing(Content(f), token).Some?
                              && Content(g[i]) == WithToken(Content(f), Missing(Content(f), token).value)))
  {
    OnePassIsEnough(body, token);
    hide Fields, WellFormed, PatchField, Missing, Content, ParseField;
    FieldsAreValid(body, false);
    FlattenOfFields(body, false);
    FieldInFlatten(Fields(body, false), i);
    assert ValidField(Fields(body, false)[i], false);
    PatchFieldTwice(Fields(body, false)[i], token);
  }
}
