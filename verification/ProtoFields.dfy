/** The field readers, the pruner and the appenders, each proved against the field-sequence view. */
module ProtoFields {
  import opened Words
  import opened Varints
  import opened Messages

  // ---- what the operations mean on field sequences ----------------------------

  function GetScalar(s: seq<byte>, number: u32): Option<Scalar> {
    LastScalar(Fields(s, true), number)
  }

  predicate Has(s: seq<byte>, number: u32) {
    Mentions(Fields(s, true), number)
  }

  predicate Mentions(fs: seq<Field>, number: u32) {
    exists i :: 0 <= i < |fs| && fs[i].Number() == number
  }

  function Pruned(s: seq<byte>, remove: set<u32>): Option<seq<byte>> {
    if WellFormed(s, true) then Some(Flatten(Without(Fields(s, true), remove))) else None
  }

  // ---- readers -------------------------------------------------------------------

  method ReadTag(data: seq<byte>, start: nat) returns (ok: bool, ptr: nat, field: u32, wire: nat)
    requires start <= |data|
    ensures start <= ptr <= |data| && wire < 8
    ensures var t := Decode(data[start..]);
            && ptr == start + t.used
            && ok == (t.ok && field != 0)
            && (t.ok ==> field == t.value / 8 % TWO_32 && wire == t.value % 8)
  {
    var tag: u64;
    ok, ptr, tag := ReadVarint(data, start);
    if !ok {
      return false, ptr, 0, 0;
    }
    field := tag / 8 % TWO_32;
    wire := tag % 8;
    ok := field != 0;
  }

  method SkipPayload(data: seq<byte>, start: nat, wire: nat) returns (ok: bool, ptr: nat)
    requires start <= |data|
    ensures start <= ptr <= |data|
    ensures ok == PayloadLength(data[start..], wire).Some?
    ensures ok ==> ptr == start + PayloadLength(data[start..], wire).value
  {
    ptr := start;
    if wire == WIRE_VARINT {
      var ignored;
      ok, ptr, ignored := ReadVarint(data, ptr);
    } else if wire == WIRE_FIXED64 {
      if |data| - ptr < 8 {
        return false, ptr;
      }
      return true, ptr + 8;
    } else if wire == WIRE_LENGTH_DELIM {
      var len;
      ok, ptr, len := ReadVarint(data, ptr);
      if !ok || len > |data| - ptr {
        return false, ptr;
      }
      ptr := ptr + len;
    } else if wire == WIRE_FIXED32 {
      if |data| - ptr < 4 {
        return false, ptr;
      }
      return true, ptr + 4;
    } else {
      ok := false;
    }
  }

  /** A tag that reads and a payload that skips are one field of the message. */
  lemma StepOverField(data: seq<byte>, start: nat, strict: bool)
    requires start <= |data|
    ensures var s := data[start..];
            var t := Decode(s);
            match ParseField(s, strict)
            case None => !t.ok || (strict && t.value / 8 % TWO_32 == 0)
                         || PayloadLength(data[start + t.used..], t.value % 8) == None
            case Some(f) =>
              && t.ok && f.tag == t.value && f.head == t.used && (strict ==> f.Number() != 0)
              && PayloadLength(data[start + t.used..], t.value % 8) == Some(|f.raw| - f.head)
              && f.raw == data[start..start + |f.raw|]
              && f.Payload() == data[start + t.used..start + |f.raw|]
  {
    hide Decode, PayloadLength;
    var s := data[start..];
    var t := Decode(s);
    assert s[t.used..] == data[start + t.used..];
    match ParseField(s, strict)
    case None =>
    case Some(f) =>
      assert f.raw == s[..|f.raw|] == data[start..start + |f.raw|];
  }

  /** Stepping over one field leaves the rest of the fields to the rest of the bytes. */
  lemma StepFields(data: seq<byte>, start: nat, strict: bool)
    requires start <= |data|
    ensures var s := data[start..];
            match ParseField(s, strict)
            case None => Fields(s, strict) == [] && (WellFormed(s, strict) <==> start == |data|)
            case Some(f) =>
              && start + |f.raw| <= |data|
              && Fields(s, strict) == [f] + Fields(data[start + |f.raw|..], strict)
              && (WellFormed(s, strict) <==> WellFormed(data[start + |f.raw|..], strict))
  {
    hide ParseField;
    var s := data[start..];
    if s == [] {
      EmptyHasNoField(strict);
    }
    match ParseField(s, strict)
    case None =>
    case Some(f) =>
      assert s[|f.raw|..] == data[start + |f.raw|..];
  }

  lemma EmptyHasNoField(strict: bool)
    ensures ParseField([], strict) == None
  {
  }

  /** How far a reader got: the fields behind `ptr`, and that the rest follow from the bytes ahead. */
  ghost predicate Cursor(data: seq<byte>, ptr: nat, done: seq<Field>, strict: bool) {
    && ptr <= |data|
    && Fields(data, strict) == done + Fields(data[ptr..], strict)
    && (WellFormed(data, strict) <==> WellFormed(data[ptr..], strict))
  }

  lemma CursorStart(data: seq<byte>, strict: bool)
    ensures Cursor(data, 0, [], strict)
  {
    assert data[0..] == data;
    assert [] + Fields(data, strict) == Fields(data, strict);
  }

  lemma CursorStep(data: seq<byte>, ptr: nat, done: seq<Field>, strict: bool)
    requires Cursor(data, ptr, done, strict)
    ensures match ParseField(data[ptr..], strict)
            case None => Fields(data, strict) == done && (WellFormed(data, strict) <==> ptr == |data|)
            case Some(f) => Cursor(data, ptr + |f.raw|, done + [f], strict)
  {
    hide Fields, WellFormed, ParseField;
    StepFields(data, ptr, strict);
    match ParseField(data[ptr..], strict)
    case None => assert done + [] == done;
    case Some(f) =>
      var rest := Fields(data[ptr + |f.raw|..], strict);
      assert done + ([f] + rest) == done + [f] + rest;
  }

  /** The scalar of the field at `start`, read straight from the buffer. */
  lemma ScalarInPlace(data: seq<byte>, start: nat, strict: bool)
    requires start <= |data| && ParseField(data[start..], strict).Some?
    ensures var f := ParseField(data[start..], strict).value;
            var next := start + f.head;
            && start + |f.raw| <= |data|
            && (f.Wire() == WIRE_VARINT ==>
                  ScalarOf(f) == Some(Scalar(Decode(data[next..]).value, WIRE_VARINT)))
            && (f.Wire() == WIRE_FIXED64 ==>
                  next + 8 == start + |f.raw|
                  && ScalarOf(f) == Some(Scalar(Load64(data[next..next + 8]), WIRE_FIXED64)))
            && (f.Wire() == WIRE_FIXED32 ==>
                  next + 4 == start + |f.raw|
                  && ScalarOf(f) == Some(Scalar(Load32(data[next..next + 4]), WIRE_FIXED32)))
            && (f.Wire() == WIRE_LENGTH_DELIM ==> ScalarOf(f) == None)
  {
    hide ParseField, Decode;
    StepOverField(data, start, strict);
    var f := ParseField(data[start..], strict).value;
    if f.Wire() == WIRE_VARINT {
      DecodeIsLocal(data[start + f.head..], f.Payload());
    }
  }

  lemma PrefixOfContent(p: seq<byte>, payload: seq<byte>)
    requires PayloadLength(p, WIRE_LENGTH_DELIM) == Some(|payload|) && payload <= p
    ensures Decode(p).ok && Decode(p).used + Decode(p).value == |payload| && Decode(payload) == Decode(p)
  {
    hide Decode;
    assert p[..Decode(p).used] <= payload;
    DecodeIsLocal(p, payload);
  }

  lemma SliceOfRest(data: seq<byte>, a: nat, b: nat)
    requires a <= b <= |data|
    ensures data[a..b] <= data[a..]
  {
  }

  lemma SliceOfSlice(data: seq<byte>, a: nat, u: nat, b: nat)
    requires a + u <= b <= |data|
    ensures data[a..b][u..] == data[a + u..b]
  {
  }

  /** Where the content of the length-delimited field `f` at `start` lies in the buffer. */
  lemma ContentInPlace(data: seq<byte>, start: nat, f: Field, strict: bool) returns (at: nat, end: nat)
    requires start <= |data| && ParseField(data[start..], strict) == Some(f) && f.Wire() == WIRE_LENGTH_DELIM
    ensures at <= end <= |data| && end == start + |f.raw|
    ensures f.head <= |f.raw| && Content(f) == data[at..end]
    ensures start + f.head <= |data|
    ensures var len := Decode(data[start + f.head..]);
            len.ok && len.value == end - at && start + f.head + len.used == at
  {
    hide ParseField, Decode, PayloadLength;
    StepOverField(data, start, strict);
    var a := start + f.head;
    end := start + |f.raw|;
    SliceOfRest(data, a, end);
    PrefixOfContent(data[a..], data[a..end]);
    at := a + Decode(data[a..]).used;
    SliceOfSlice(data, a, Decode(data[a..]).used, end);
  }

  lemma LastScalarSnoc(fs: seq<Field>, f: Field, number: u32)
    ensures LastScalar(fs + [f], number) ==
            if CarriesScalar(f, number) then ScalarOf(f) else LastScalar(fs, number)
  {
    assert (fs + [f])[..|fs|] == fs;
  }

  /** What one turn of the scalar reader finds at `ptr`. */
  ghost predicate ScalarTurn(data: seq<byte>, ptr: nat, done: seq<Field>, number: u32, result: Option<Scalar>) {
    && Cursor(data, ptr, done, true)
    && result == LastScalar(done, number)
  }

  lemma ScalarTurnStart(data: seq<byte>, number: u32)
    ensures ScalarTurn(data, 0, [], number, None)
  {
    hide Cursor;
    CursorStart(data, true);
  }

  lemma ScalarTurnStep(data: seq<byte>, ptr: nat, done: seq<Field>, number: u32, result: Option<Scalar>)
    requires ScalarTurn(data, ptr, done, number, result)
    ensures match ParseField(data[ptr..], true)
            case None => result == GetScalar(data, number)
            case Some(f) =>
              && 0 < f.head <= |f.raw|
              && ScalarTurn(data, ptr + |f.raw|, done + [f], number,
                         if f.Number() == number && ScalarOf(f).Some? then ScalarOf(f) else result)
  {
    hide Fields, WellFormed, ParseField, ScalarOf;
    CursorStep(data, ptr, done, true);
    match ParseField(data[ptr..], true)
    case None =>
    case Some(f) => LastScalarSnoc(done, f, number);
  }

  /** Reads the last scalar with the wanted number, and the wire type it came in. */
  method GetScalarField(data: seq<byte>, wantField: u32) returns (result: Option<Scalar>)
    ensures result == GetScalar(data, wantField)
  {
    hide Fields, WellFormed, ParseField, Decode, ScalarOf, Cursor, GetScalar, ScalarTurn;
    result := None;
    var ptr := 0;
    ghost var done: seq<Field> := [];
    ScalarTurnStart(data, wantField);
    while ptr < |data|
      invariant ptr <= |data|
      invariant ScalarTurn(data, ptr, done, wantField, result)
    {
      StepOverField(data, ptr, true);
      ScalarTurnStep(data, ptr, done, wantField, result);
      ghost var f := ParseField(data[ptr..], true);
      if f.Some? {
        ScalarInPlace(data, ptr, true);
        done := done + [f.value];
      }
      var ok, next, field, wire := ReadTag(data, ptr);
      if !ok {
        return;
      }
      if field == wantField && (wire == WIRE_VARINT || wire == WIRE_FIXED64 || wire == WIRE_FIXED32) {
        var value: u64;
        if wire == WIRE_VARINT {
          ok, next, value := ReadVarint(data, next);
          if !ok {
            return;
          }
        } else if wire == WIRE_FIXED64 {
          if |data| - next < 8 {
            return;
          }
          value := Load64(data[next..next + 8]);
          next := next + 8;
        } else {
          if |data| - next < 4 {
            return;
          }
          value := Load32(data[next..next + 4]);
          next := next + 4;
        }
        ptr := next;
        result := Some(Scalar(value, wire));
        continue;
      }
      ok, next := SkipPayload(data, next, wire);
      if !ok {
        return;
      }
      ptr := next;
    }
    ScalarTurnStep(data, ptr, done, wantField, result);
    EmptyHasNoField(true);
  }

  /** A scalar that must have come in as a varint. */
  method GetVarintField(data: seq<byte>, field: u32) returns (value: Option<u64>)
    ensures value == VarintValue(data, field)
  {
    var scalar := GetScalarField(data, field);
    if scalar == None || scalar.value.wire != WIRE_VARINT {
      return None;
    }
    return Some(scalar.value.value);
  }

  function VarintValue(s: seq<byte>, number: u32): Option<u64> {
    match GetScalar(s, number)
    case Some(Scalar(v, w)) => if w == WIRE_VARINT then Some(v) else None
    case None => None
  }

  lemma MentionsAppend(a: seq<Field>, b: seq<Field>, number: u32)
    ensures Mentions(a + b, number) <==> Mentions(a, number) || Mentions(b, number)
  {
    if Mentions(a, number) {
      var i :| 0 <= i < |a| && a[i].Number() == number;
      assert (a + b)[i].Number() == number;
    }
    if Mentions(b, number) {
      var i :| 0 <= i < |b| && b[i].Number() == number;
      assert (a + b)[|a| + i].Number() == number;
    }
  }

  /** Whether a field with the wanted number, payload included, comes before any malformed one. */
  method HasField(data: seq<byte>, wantField: u32) returns (found: bool)
    ensures found == Has(data, wantField)
  {
    hide Fields, WellFormed, ParseField, Decode, PayloadLength, Mentions;
    var ptr := 0;
    ghost var done: seq<Field> := [];
    CursorStart(data, true);
    assert !Mentions(done, wantField) by { MentionsNone(wantField); }
    while ptr < |data|
      invariant Cursor(data, ptr, done, true) && !Mentions(done, wantField)
    {
      StepOverField(data, ptr, true);
      CursorStep(data, ptr, done, true);
      ghost var f := ParseField(data[ptr..], true);
      if f.Some? {
        MentionsOne(f.value, wantField);
        MentionsAppend(done, [f.value], wantField);
        MentionsAppend(done + [f.value], Fields(data[ptr + |f.value.raw|..], true), wantField);
        done := done + [f.value];
      }
      var ok, next, field, wire := ReadTag(data, ptr);
      if !ok {
        return false;
      }
      ok, next := SkipPayload(data, next, wire);
      if field == wantField {
        return ok;
      }
      if !ok {
        return false;
      }
      ptr := next;
    }
    CursorStep(data, ptr, done, true);
    EmptyHasNoField(true);
    return false;
  }

  lemma MentionsNone(number: u32)
    ensures !Mentions([], number)
  {
  }

  lemma MentionsOne(f: Field, number: u32)
    ensures Mentions([f], number) <==> f.Number() == number
  {
    assert [f][0] == f;
  }

  /** Rebuilds the message without the listed field numbers; none when the message is malformed. */
  method WithoutFields(data: seq<byte>, remove: set<u32>) returns (result: Option<seq<byte>>)
    ensures result == Pruned(data, remove)
  {
    hide Fields, WellFormed, ParseField, Decode, PayloadLength, Without, Flatten;
    var ptr := 0;
    var out: seq<byte> := [];
    ghost var done: seq<Field> := [];
    CursorStart(data, true);
    WithoutNone(remove);
    while ptr < |data|
      invariant Cursor(data, ptr, done, true)
      invariant out == Flatten(Without(done, remove))
    {
      StepOverField(data, ptr, true);
      CursorStep(data, ptr, done, true);
      ghost var f := ParseField(data[ptr..], true);
      if f.Some? {
        WithoutSnoc(done, f.value, remove);
        done := done + [f.value];
      }
      var fieldStart := ptr;
      var ok, next, field, wire := ReadTag(data, ptr);
      if !ok {
        return None;
      }
      ok, next := SkipPayload(data, next, wire);
      if !ok {
        return None;
      }
      ptr := next;
      if field in remove {
        continue;
      }
      out := out + data[fieldStart..ptr];
    }
    CursorStep(data, ptr, done, true);
    EmptyHasNoField(true);
    return Some(out);
  }

  lemma WithoutSnoc(fs: seq<Field>, f: Field, remove: set<u32>)
    ensures Flatten(Without(fs + [f], remove)) ==
            Flatten(Without(fs, remove)) + (if f.Number() in remove then [] else f.raw)
  {
    WithoutAppend(fs, [f], remove);
    assert [f][1..] == [];
    assert Flatten([f]) == f.raw;
    FlattenAppend(Without(fs, remove), Without([f], remove));
  }

  // ---- the algebra of pruning ---------------------------------------------------

  /** Pruning succeeds exactly on well-formed messages, and its result holds exactly the kept fields. */
  lemma PrunedFields(s: seq<byte>, remove: set<u32>)
    ensures Pruned(s, remove).Some? <==> WellFormed(s, true)
    ensures WellFormed(s, true) ==>
              var t := Pruned(s, remove).value;
              WellFormed(t, true) && Fields(t, true) == Without(Fields(s, true), remove)
  {
    if WellFormed(s, true) {
      FieldsAreValid(s, true);
      WithoutKeepsValid(Fields(s, true), remove, true);
      FlattenIsWellFormed(Without(Fields(s, true), remove), true);
    }
  }

  lemma {:induction false} WithoutTwice(fs: seq<Field>, a: set<u32>, b: set<u32>)
    ensures Without(Without(fs, a), b) == Without(fs, a + b)
  {
    if fs != [] {
      WithoutTwice(fs[1..], a, b);
    }
  }

  /** Removing one set and then another is removing their union; so pruning again changes nothing. */
  lemma PruneTwice(s: seq<byte>, a: set<u32>, b: set<u32>)
    requires WellFormed(s, true)
    ensures Pruned(Pruned(s, a).value, b) == Pruned(s, a + b)
    ensures Pruned(Pruned(s, a).value, a) == Pruned(s, a)
  {
    hide Fields, WellFormed;
    PrunedFields(s, a);
    WithoutTwice(Fields(s, true), a, b);
    WithoutTwice(Fields(s, true), a, a);
    assert a + a == a;
  }

  lemma {:induction false} MentionsWithout(fs: seq<Field>, remove: set<u32>, number: u32)
    ensures Mentions(Without(fs, remove), number) <==> Mentions(fs, number) && number !in remove
  {
    if fs != [] {
      MentionsWithout(fs[1..], remove, number);
      MentionsOne(fs[0], number);
      MentionsAppend([fs[0]], fs[1..], number);
      MentionsAppend([fs[0]], Without(fs[1..], remove), number);
      assert [fs[0]] + fs[1..] == fs;
    }
  }

  lemma {:induction false} LastScalarWithout(fs: seq<Field>, remove: set<u32>, number: u32)
    ensures LastScalar(Without(fs, remove), number) == if number in remove then None else LastScalar(fs, number)
  {
    if fs != [] {
      LastScalarWithout(fs[1..], remove, number);
      LastScalarAppend([fs[0]], fs[1..], number);
      LastScalarAppend([fs[0]], Without(fs[1..], remove), number);
      LastScalarSnoc([], fs[0], number);
      assert [] + [fs[0]] == [fs[0]];
      assert [fs[0]] + fs[1..] == fs;
    }
  }

  /** After pruning, removed numbers are gone and every kept number reads as before. */
  lemma PruneReads(s: seq<byte>, remove: set<u32>, number: u32)
    requires WellFormed(s, true)
    ensures var t := Pruned(s, remove).value;
            && (Has(t, number) <==> Has(s, number) && number !in remove)
            && GetScalar(t, number) == (if number in remove then None else GetScalar(s, number))
  {
    hide Fields, WellFormed;
    PrunedFields(s, remove);
    MentionsWithout(Fields(s, true), remove, number);
    LastScalarWithout(Fields(s, true), remove, number);
  }

  // ---- appenders -------------------------------------------------------------------

  function TagOf(number: u32, wire: nat): u64
    requires wire < 8
  {
    number * 8 + wire
  }

  /** A field built from a canonical tag and the given payload. */
  function MakeField(number: u32, wire: nat, payload: seq<byte>): Field
    requires wire < 8
  {
    Field(TagOf(number, wire), |Encode(TagOf(number, wire))|, Encode(TagOf(number, wire)) + payload)
  }

  function VarintField(number: u32, value: u64): Field {
    MakeField(number, WIRE_VARINT, Encode(value))
  }

  function Fixed64Field(number: u32, value: u64): Field {
    MakeField(number, WIRE_FIXED64, ToBytes(value, 8))
  }

  function BytesField(number: u32, content: seq<byte>): Field {
    MakeField(number, WIRE_LENGTH_DELIM, Encode(|content|) + content)
  }

  lemma MadeFieldIsValid(number: u32, wire: nat, payload: seq<byte>, strict: bool)
    requires wire < 8 && PayloadLength(payload, wire) == Some(|payload|) && (strict ==> number != 0)
    ensures ValidField(MakeField(number, wire, payload), strict)
    ensures MakeField(number, wire, payload).Number() == number && MakeField(number, wire, payload).Wire() == wire
    ensures MakeField(number, wire, payload).Payload() == payload
  {
    hide Decode, PayloadLength;
    var f := MakeField(number, wire, payload);
    RoundTrip(f.tag, payload);
    assert f.raw[f.head..] == payload;
    assert f.raw[..f.head + |payload|] == f.raw;
  }

  lemma VarintFieldIsValid(number: u32, value: u64, strict: bool)
    requires strict ==> number != 0
    ensures ValidField(VarintField(number, value), strict)
    ensures VarintField(number, value).Number() == number && VarintField(number, value).Wire() == WIRE_VARINT
    ensures ScalarOf(VarintField(number, value)) == Some(Scalar(value, WIRE_VARINT))
  {
    hide Decode;
    RoundTrip(value, []);
    assert Encode(value) + [] == Encode(value);
    MadeFieldIsValid(number, WIRE_VARINT, Encode(value), strict);
  }

  lemma Fixed64FieldIsValid(number: u32, value: u64, strict: bool)
    requires strict ==> number != 0
    ensures ValidField(Fixed64Field(number, value), strict)
    ensures Fixed64Field(number, value).Number() == number && Fixed64Field(number, value).Wire() == WIRE_FIXED64
    ensures ScalarOf(Fixed64Field(number, value)) == Some(Scalar(value, WIRE_FIXED64))
  {
    LoadStore64(value);
    MadeFieldIsValid(number, WIRE_FIXED64, ToBytes(value, 8), strict);
  }

  lemma BytesFieldIsValid(number: u32, content: seq<byte>, strict: bool)
    requires |content| < TWO_64 && (strict ==> number != 0)
    ensures ValidField(BytesField(number, content), strict)
    ensures BytesField(number, content).Number() == number
    ensures BytesField(number, content).Wire() == WIRE_LENGTH_DELIM
    ensures Content(BytesField(number, content)) == content
  {
    hide Decode;
    RoundTrip(|content|, content);
    MadeFieldIsValid(number, WIRE_LENGTH_DELIM, Encode(|content|) + content, strict);
  }

  method AppendVarintField(body: ByteVector, field: u32, value: u64)
    modifies body
    ensures body.bytes == old(body.bytes) + VarintField(field, value).raw
  {
    WriteVarint(body, TagOf(field, WIRE_VARINT));
    WriteVarint(body, value);
  }

  lemma ToBytesStep(v: nat, n: nat)
    requires n > 0
    ensures ToBytes(v, n) == [v % 256] + ToBytes(v / 256, n - 1)
    ensures ToBytes(v, 0) == []
  {
  }

  method AppendFixed64Field(body: ByteVector, field: u32, value: u64)
    modifies body
    ensures body.bytes == old(body.bytes) + Fixed64Field(field, value).raw
  {
    hide ToBytes, Encode;
    WriteVarint(body, TagOf(field, WIRE_FIXED64));
    var i, rest: nat := 0, value;
    ghost var written: seq<byte> := [];
    while i < 8
      invariant i <= 8
      invariant body.bytes == old(body.bytes) + (Encode(TagOf(field, WIRE_FIXED64)) + written)
      invariant written + ToBytes(rest, 8 - i) == ToBytes(value, 8)
    {
      ToBytesStep(rest, 8 - i);
      written := written + [rest % 256];
      body.PushBack(rest % 256);
      rest := rest / 256;
      i := i + 1;
    }
    ToBytesStep(rest, 1);
    assert written + [] == written;
  }

  method AppendBytesField(body: ByteVector, field: u32, payload: seq<byte>)
    requires |payload| < TWO_64
    modifies body
    ensures body.bytes == old(body.bytes) + BytesField(field, payload).raw
  {
    WriteVarint(body, TagOf(field, WIRE_LENGTH_DELIM));
    WriteVarint(body, |payload|);
    body.Insert(payload);
  }

  // ---- last one wins -----------------------------------------------------------------

  /**
    * Appending a scalar field to a well-formed message overrides that field, leaves every other field as
    * it was, and keeps the message well-formed.
    */
  lemma AppendOverrides(m: seq<byte>, f: Field, number: u32)
    requires WellFormed(m, true) && ValidField(f, true) && ScalarOf(f).Some?
    ensures WellFormed(m + f.raw, true) && Fields(m + f.raw, true) == Fields(m, true) + [f]
    ensures GetScalar(m + f.raw, number) == if number == f.Number() then ScalarOf(f) else GetScalar(m, number)
  {
    hide ParseField;
    FieldsOfCons(f, [], true);
    assert f.raw + [] == f.raw;
    EmptyHasNoField(true);
    Concatenation(m, f.raw, true);
    LastScalarSnoc(Fields(m, true), f, number);
  }
}
