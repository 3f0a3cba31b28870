/** The wire format and the scalar reader, said without the parser. */
module FieldReads {
  import opened Words
  import opened Varints
  import opened Messages
  import opened ProtoFields

  /** The bytes are one complete varint of that value. */
  predicate IsVarint(s: seq<byte>, v: nat) {
    Decode(s).ok && Decode(s).used == |s| && Decode(s).value == v
  }

  /** A payload by wire type: a varint, eight bytes, a length and as many bytes, or four bytes. */
  predicate IsPayload(p: seq<byte>, wire: nat) {
    || (wire == 0 && exists v: u64 :: IsVarint(p, v))
    || (wire == 1 && |p| == 8)
    || (wire == 2 && exists u: nat :: u <= |p| && IsVarint(p[..u], |p| - u))
    || (wire == 5 && |p| == 4)
  }

  /** A field is a tag and a payload of the tag's wire type; the strict reader wants a number other than zero. */
  lemma FieldIff(f: Field, strict: bool)
    ensures ValidField(f, strict) <==>
            && 0 < f.head <= |f.raw| && IsVarint(f.raw[..f.head], f.tag) && IsPayload(f.raw[f.head..], f.tag % 8)
            && (strict ==> f.tag / 8 % 0x1_0000_0000 != 0)
  {
    hide Decode, IsPayload, PayloadLength;
    if ValidField(f, strict) {
      VarintInFront(f.raw);
      PayloadIff(f.raw[f.head..], f.tag % 8);
    }
    if 0 < f.head <= |f.raw| && IsVarint(f.raw[..f.head], f.tag) && IsPayload(f.raw[f.head..], f.tag % 8) {
      assert f.raw[..f.head][..f.head] <= f.raw;
      DecodeIsLocal(f.raw[..f.head], f.raw);
      PayloadIff(f.raw[f.head..], f.tag % 8);
      assert f.raw[..|f.raw|] == f.raw;
    }
  }

  lemma VarintInFront(s: seq<byte>)
    ensures Decode(s).ok ==> IsVarint(s[..Decode(s).used], Decode(s).value)
  {
    hide Decode;
    if Decode(s).ok {
      var u := Decode(s).used;
      assert s[..u] <= s[..u];
      DecodeIsLocal(s, s[..u]);
    }
  }

  lemma PayloadIff(p: seq<byte>, wire: nat)
    ensures IsPayload(p, wire) <==> PayloadLength(p, wire) == Some(|p|)
  {
    hide Decode;
    VarintInFront(p);
    if wire == 2 && IsPayload(p, wire) {
      var u: nat :| u <= |p| && IsVarint(p[..u], |p| - u);
      assert p[..u][..u] <= p;
      DecodeIsLocal(p[..u], p);
    }
    if wire == 0 && PayloadLength(p, wire) == Some(|p|) {
      assert p[..|p|] == p && IsVarint(p, Decode(p).value);
    }
    if wire == 2 && PayloadLength(p, wire) == Some(|p|) {
      assert IsVarint(p[..Decode(p).used], |p| - Decode(p).used);
    }
  }

  // ---- scalars -----------------------------------------------------------------------------------

  function Scalars(number: u32): Field -> bool {
    (f: Field) => f.Number() == number && (f.Wire() == 0 || f.Wire() == 1 || f.Wire() == 5)
  }

  /** The number a payload of a scalar wire type stands for. */
  function NumberIn(p: seq<byte>, wire: nat): nat {
    if wire == 0 then Decode(p).value else FromBytes(p)
  }

  /** A scalar read yields number and wire type of the last scalar field in front of any malformed one. */
  lemma ScalarIsLast(s: seq<byte>, number: u32)
    ensures match Last(Fields(s, true), Scalars(number))
            case None => GetScalar(s, number) == None
            case Some(f) =>
              && f.head <= |f.raw| && GetScalar(s, number).Some?
              && GetScalar(s, number).value.value == NumberIn(f.Payload(), f.Wire())
              && GetScalar(s, number).value.wire == f.Wire()
  {
    hide Fields;
    FieldsAreValid(s, true);
    LastScalarIsLast(Fields(s, true), number);
  }

  lemma {:induction false} LastScalarIsLast(fs: seq<Field>, number: u32)
    requires ValidFields(fs, true)
    ensures match Last(fs, Scalars(number))
            case None => LastScalar(fs, number) == None
            case Some(f) =>
              && f.head <= |f.raw| && LastScalar(fs, number).Some?
              && LastScalar(fs, number).value.value == NumberIn(f.Payload(), f.Wire())
              && LastScalar(fs, number).value.wire == f.Wire()
  {
    hide ValidField, NumberIn, ScalarOf;
    if fs != [] {
      var front, f := fs[..|fs| - 1], fs[|fs| - 1];
      LastScalarIsLast(front, number);
      assert ValidField(f, true);
      ScalarIs(f);
    }
  }

  lemma ScalarIs(f: Field)
    requires ValidField(f, true)
    ensures f.head <= |f.raw|
    ensures match ScalarOf(f)
            case None => f.Wire() == 2
            case Some(x) => x.wire == f.Wire() && f.Wire() in {0, 1, 5} && x.value == NumberIn(f.Payload(), f.Wire())
  {
    hide Decode;
    PayloadOfValid(f);
  }

  lemma PayloadOfValid(f: Field)
    requires ValidField(f, true)
    ensures f.head <= |f.raw| && PayloadLength(f.Payload(), f.Wire()) == Some(|f.Payload()|)
  {
    hide Decode, PayloadLength;
  }
}
