/**
  * Messages as sequences of fields.
  *
  * A field is a tag varint followed by a payload whose length the tag's wire type decides. Two readers
  * share this grammar: the strict one rejects field number zero, the lenient one does not.
  */
module Messages {
  import opened Words
  import opened Varints

  const WIRE_VARINT: nat := 0
  const WIRE_FIXED64: nat := 1
  const WIRE_LENGTH_DELIM: nat := 2
  const WIRE_FIXED32: nat := 5

  /** One field: its tag value, how many bytes the tag took, and all the bytes of the field. */
  datatype Field = Field(tag: u64, head: nat, raw: seq<byte>) {
    function Number(): u32 { tag / 8 % TWO_32 }

    function Wire(): nat { tag % 8 }

    function Payload(): seq<byte>
      requires head <= |raw|
    {
      raw[head..]
    }
  }

  /** How long a payload of the given wire type at the front of `s` is; none when it is malformed. */
  function PayloadLength(s: seq<byte>, wire: nat): (n: Option<nat>)
    ensures n.Some? ==> n.value <= |s|
  {
    if wire == WIRE_VARINT then
      var v := Decode(s);
      if v.ok then Some(v.used) else None
    else if wire == WIRE_FIXED64 then
      if |s| < 8 then None else Some(8)
    else if wire == WIRE_LENGTH_DELIM then
      var v := Decode(s);
      if !v.ok || v.value > |s| - v.used then None else Some(v.used + v.value)
    else if wire == WIRE_FIXED32 then
      if |s| < 4 then None else Some(4)
    else None
  }

  /** The field at the front of `s`, if a complete one is there. */
  function ParseField(s: seq<byte>, strict: bool): (f: Option<Field>)
    ensures f.Some? ==> 0 < f.value.head <= |f.value.raw| <= |s| && f.value.raw == s[..|f.value.raw|]
  {
    var t := Decode(s);
    if !t.ok || (strict && Field(t.value, 0, []).Number() == 0) then None
    else
      match PayloadLength(s[t.used..], t.value % 8)
      case None => None
      case Some(n) => Some(Field(t.value, t.used, s[..t.used + n]))
  }

  /** The complete fields at the front of `s`, up to the end or the first malformed one. */
  function Fields(s: seq<byte>, strict: bool): seq<Field>
    decreases |s|
  {
    match ParseField(s, strict)
    case None => []
    case Some(f) => [f] + Fields(s[|f.raw|..], strict)
  }

  /** A message is well-formed when fields cover it entirely. */
  predicate WellFormed(s: seq<byte>, strict: bool)
    decreases |s|
  {
    s == [] ||
    match ParseField(s, strict)
    case None => false
    case Some(f) => WellFormed(s[|f.raw|..], strict)
  }

  /** The bytes of a sequence of fields. */
  function Flatten(fs: seq<Field>): seq<byte> {
    if fs == [] then [] else fs[0].raw + Flatten(fs[1..])
  }

  /** A field that stands for its own bytes. */
  predicate ValidField(f: Field, strict: bool) {
    ParseField(f.raw, strict) == Some(f)
  }

  predicate ValidFields(fs: seq<Field>, strict: bool) {
    forall i :: 0 <= i < |fs| ==> ValidField(fs[i], strict)
  }

  // ---- parsing is local --------------------------------------------------------

  lemma EmptyIsWellFormed(strict: bool)
    ensures WellFormed([], strict) && Fields([], strict) == []
  {
  }

  lemma ValidFieldShape(f: Field, strict: bool)
    requires ValidField(f, strict)
    ensures 0 < f.head <= |f.raw|
  {
  }

  lemma PayloadIsLocal(s: seq<byte>, t: seq<byte>, wire: nat)
    requires PayloadLength(s, wire).Some? && s[..PayloadLength(s, wire).value] <= t
    ensures PayloadLength(t, wire) == PayloadLength(s, wire)
  {
    if wire == WIRE_VARINT || wire == WIRE_LENGTH_DELIM {
      var u, n := Decode(s).used, PayloadLength(s, wire).value;
      assert s[..u] == s[..n][..u] <= t;
      DecodeIsLocal(s, t);
    }
  }

  /** A field parses the same from any bytes that start with the ones it covers. */
  lemma FieldIsLocal(s: seq<byte>, t: seq<byte>, strict: bool)
    requires ParseField(s, strict).Some? && ParseField(s, strict).value.raw <= t
    ensures ParseField(t, strict) == ParseField(s, strict)
  {
    hide PayloadLength;
    var f := ParseField(s, strict).value;
    var u, n := f.head, |f.raw|;
    assert s[..u] == f.raw[..u] <= t;
    DecodeIsLocal(s, t);
    assert s[u..][..n - u] == f.raw[u..] <= t[u..];
    PayloadIsLocal(s[u..], t[u..], f.tag % 8);
    assert t[..n] == f.raw;
  }

  // ---- messages and field sequences are the same thing ---------------------------

  lemma {:induction false} FieldsAreValid(s: seq<byte>, strict: bool)
    ensures ValidFields(Fields(s, strict), strict)
    decreases |s|
  {
    match ParseField(s, strict)
    case None =>
    case Some(f) =>
      FieldIsLocal(s, f.raw, strict);
      FieldsAreValid(s[|f.raw|..], strict);
  }

  /** The field at the front and the fields behind it. */
  lemma FrontField(s: seq<byte>, f: Field, strict: bool)
    requires ParseField(s, strict) == Some(f)
    ensures 0 < f.head <= |f.raw| <= |s| && ValidField(f, strict)
    ensures Fields(s, strict) == [f] + Fields(s[|f.raw|..], strict)
    ensures WellFormed(s, strict) <==> WellFormed(s[|f.raw|..], strict)
  {
    hide ParseField;
    FieldIsLocal(s, f.raw, strict);
  }

  lemma {:induction false} FlattenAppend(a: seq<Field>, b: seq<Field>)
    ensures Flatten(a + b) == Flatten(a) + Flatten(b)
  {
    if a == [] {
      assert a + b == b;
    } else {
      FlattenAppend(a[1..], b);
      FlattenCons(a[0], a[1..] + b);
      FlattenCons(a[0], a[1..]);
      assert [a[0]] + (a[1..] + b) == a + b && [a[0]] + a[1..] == a;
      hide Flatten;
      Reassociate(a[0].raw, Flatten(a[1..]), Flatten(b));
    }
  }

  lemma FlattenCons(f: Field, fs: seq<Field>)
    ensures Flatten([f] + fs) == f.raw + Flatten(fs)
  {
    assert ([f] + fs)[1..] == fs;
  }

  /** A field is no longer than the message it is in. */
  lemma {:induction false} FieldInFlatten(fs: seq<Field>, i: nat)
    requires i < |fs|
    ensures |fs[i].raw| <= |Flatten(fs)|
  {
    if i > 0 {
      FieldInFlatten(fs[1..], i - 1);
    }
  }

  /** A valid field in front of anything is the first field read. */
  lemma FieldsOfCons(f: Field, t: seq<byte>, strict: bool)
    requires ValidField(f, strict)
    ensures Fields(f.raw + t, strict) == [f] + Fields(t, strict)
    ensures WellFormed(f.raw + t, strict) <==> WellFormed(t, strict)
  {
    FieldIsLocal(f.raw, f.raw + t, strict);
    assert (f.raw + t)[|f.raw|..] == t;
  }

  /** Parsing undoes flattening, and carries on with what follows. */
  lemma {:induction false} FieldsOfFlatten(fs: seq<Field>, t: seq<byte>, strict: bool)
    requires ValidFields(fs, strict)
    ensures Fields(Flatten(fs) + t, strict) == fs + Fields(t, strict)
    ensures WellFormed(Flatten(fs) + t, strict) <==> WellFormed(t, strict)
  {
    hide Fields, WellFormed, ParseField;
    if fs == [] {
      assert Flatten(fs) + t == t;
    } else {
      FieldsOfFlatten(fs[1..], t, strict);
      FieldsOfCons(fs[0], Flatten(fs[1..]) + t, strict);
      assert Flatten(fs) + t == fs[0].raw + (Flatten(fs[1..]) + t);
      assert [fs[0]] + (fs[1..] + Fields(t, strict)) == fs + Fields(t, strict);
    }
  }

  /** Flattening undoes parsing exactly on the well-formed messages. */
  lemma {:induction false} FlattenOfFields(s: seq<byte>, strict: bool)
    ensures WellFormed(s, strict) <==> Flatten(Fields(s, strict)) == s
    ensures |Flatten(Fields(s, strict))| <= |s|
    ensures Flatten(Fields(s, strict)) == s[..|Flatten(Fields(s, strict))|]
    decreases |s|
  {
    hide ParseField;
    match ParseField(s, strict)
    case None =>
    case Some(f) =>
      var rest := s[|f.raw|..];
      FlattenOfFields(rest, strict);
      assert Fields(s, strict)[1..] == Fields(rest, strict);
      assert Flatten(Fields(s, strict)) == f.raw + Flatten(Fields(rest, strict));
      assert s == f.raw + rest;
  }

  /** The well-formed messages are exactly the flattenings of valid fields. */
  lemma FlattenIsWellFormed(fs: seq<Field>, strict: bool)
    requires ValidFields(fs, strict)
    ensures WellFormed(Flatten(fs), strict) && Fields(Flatten(fs), strict) == fs
  {
    FieldsOfFlatten(fs, [], strict);
    assert Flatten(fs) + [] == Flatten(fs);
    assert fs + [] == fs;
  }

  /** Concatenating a well-formed message with anything concatenates the fields. */
  lemma Concatenation(a: seq<byte>, b: seq<byte>, strict: bool)
    requires WellFormed(a, strict)
    ensures Fields(a + b, strict) == Fields(a, strict) + Fields(b, strict)
    ensures WellFormed(a + b, strict) <==> WellFormed(b, strict)
  {
    FieldsAreValid(a, strict);
    FlattenOfFields(a, strict);
    FieldsOfFlatten(Fields(a, strict), b, strict);
  }

  /** Whatever the strict reader accepts, the lenient one reads the same way. */
  lemma {:induction false} StrictIsLenient(s: seq<byte>)
    requires WellFormed(s, true)
    ensures WellFormed(s, false) && Fields(s, false) == Fields(s, true)
    decreases |s|
  {
    if s != [] {
      StrictIsLenient(s[|ParseField(s, true).value.raw|..]);
    }
  }

  // ---- field values ---------------------------------------------------------------

  /** A scalar value together with the wire type it came in. */
  datatype Scalar = Scalar(value: u64, wire: nat)

  /** The scalar a field carries; length-delimited fields carry none. */
  function ScalarOf(f: Field): Option<Scalar>
    requires f.head <= |f.raw|
  {
    var p := f.Payload();
    if f.Wire() == WIRE_VARINT then Some(Scalar(Decode(p).value, WIRE_VARINT))
    else if f.Wire() == WIRE_FIXED64 && |p| == 8 then Some(Scalar(Load64(p), WIRE_FIXED64))
    else if f.Wire() == WIRE_FIXED32 && |p| == 4 then Some(Scalar(Load32(p), WIRE_FIXED32))
    else None
  }

  predicate CarriesScalar(f: Field, number: u32) {
    f.head <= |f.raw| && f.Number() == number && ScalarOf(f).Some?
  }

  /** The last scalar with the wanted number. */
  function LastScalar(fs: seq<Field>, number: u32): Option<Scalar> {
    if fs == [] then None
    else
      var last := fs[|fs| - 1];
      if CarriesScalar(last, number) then ScalarOf(last) else LastScalar(fs[..|fs| - 1], number)
  }

  /** The content of a length-delimited payload, without its length prefix. */
  function Content(f: Field): seq<byte>
    requires f.head <= |f.raw|
  {
    f.Payload()[Decode(f.Payload()).used..]
  }

  /** The fields whose number is not in `remove`, in order. */
  function Without(fs: seq<Field>, remove: set<u32>): seq<Field> {
    if fs == [] then []
    else if fs[0].Number() in remove then Without(fs[1..], remove)
    else [fs[0]] + Without(fs[1..], remove)
  }

  lemma {:induction false} WithoutAppend(a: seq<Field>, b: seq<Field>, remove: set<u32>)
    ensures Without(a + b, remove) == Without(a, remove) + Without(b, remove)
  {
    hide Without;
    if a == [] {
      assert a + b == b;
      WithoutNone(remove);
      assert [] + Without(b, remove) == Without(b, remove);
    } else {
      WithoutAppend(a[1..], b, remove);
      WithoutCons(a[0], a[1..], remove);
      WithoutCons(a[0], a[1..] + b, remove);
      assert [a[0]] + (a[1..] + b) == a + b && [a[0]] + a[1..] == a;
      Reassociate([a[0]], Without(a[1..], remove), Without(b, remove));
    }
  }

  lemma WithoutNone(remove: set<u32>)
    ensures Without([], remove) == [] && Flatten([]) == []
  {
  }

  lemma WithoutCons(f: Field, fs: seq<Field>, remove: set<u32>)
    ensures Without([f] + fs, remove) ==
            if f.Number() in remove then Without(fs, remove) else [f] + Without(fs, remove)
  {
    assert ([f] + fs)[1..] == fs;
  }

  lemma {:induction false} WithoutKeepsValid(fs: seq<Field>, remove: set<u32>, strict: bool)
    requires ValidFields(fs, strict)
    ensures ValidFields(Without(fs, remove), strict)
  {
    if fs != [] {
      WithoutKeepsValid(fs[1..], remove, strict);
    }
  }

  lemma {:induction false} LastScalarAppend(a: seq<Field>, b: seq<Field>, number: u32)
    ensures LastScalar(a + b, number) ==
            if LastScalar(b, number).Some? then LastScalar(b, number) else LastScalar(a, number)
  {
    if b == [] {
      assert a + b == a;
    } else {
      assert (a + b)[..|a + b| - 1] == a + b[..|b| - 1];
      LastScalarAppend(a, b[..|b| - 1], number);
    }
  }
}
