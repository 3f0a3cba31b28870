/**
  * When appending overrides.
  *
  * The codec promises that appending a scalar field to a message overrides that field. The promise is
  * kept for every field number and value exactly on the messages that are well-formed: on any other
  * bytes some appended field is swallowed by, or lost behind, the malformed tail.
  */
module OverrideLaw {
  import opened Words
  import opened Varints
  import opened Messages
  import opened ProtoFields

  /** Appending the varint field makes it read back. */
  predicate Overrides(m: seq<byte>, number: u32, value: u64) {
    GetScalar(m + VarintField(number, value).raw, number) == Some(Scalar(value, WIRE_VARINT))
  }

  /** The promise, for every field and value. */
  ghost predicate AlwaysOverrides(m: seq<byte>) {
    forall number: u32, value: u64 :: number != 0 ==> Overrides(m, number, value)
  }

  lemma OverridesIffWellFormed(m: seq<byte>)
    ensures AlwaysOverrides(m) <==> WellFormed(m, true)
  {
    hide Fields, WellFormed, ParseField, GetScalar;
    if WellFormed(m, true) {
      forall number: u32, value: u64 | number != 0
        ensures Overrides(m, number, value)
      {
        VarintFieldIsValid(number, value, true);
        AppendOverrides(m, VarintField(number, value), number);
      }
    } else {
      var number, value := MalformedTailSwallows(m);
      assert !Overrides(m, number, value);
    }
  }

  /** On malformed bytes one of the fields 1 and 2, with one of the values 6 and 7, does not read back. */
  lemma MalformedTailSwallows(m: seq<byte>) returns (number: u32, value: u64)
    requires !WellFormed(m, true)
    ensures number != 0 && !Overrides(m, number, value)
  {
    hide Fields, WellFormed, ParseField, Decode;
    var done := Fields(m, true);
    FlattenOfFields(m, true);
    var tail := m[|Flatten(done)|..];
    FieldsAreValid(m, true);
    assert m == Flatten(done) + tail;
    FieldsOfFlatten(done, tail, true);
    NoFieldInTail(done, tail);
    var tailNumber := Decode(tail).value / 8 % TWO_32;
    number := if tailNumber == 1 then 2 else 1;
    value := if LastScalar(done, number) == Some(Scalar(6, WIRE_VARINT)) then 7 else 6;
    var app := VarintField(number, value).raw;
    ShortAppend(number, value);
    FieldsOfFlatten(done, tail + app, true);
    assert m + app == Flatten(done) + (tail + app);
    TailWithAppend(tail, number, value);
    var more := Fields(tail + app, true);
    if more == [] {
      assert done + more == done;
    } else {
      LastScalarSnoc(done, more[0], number);
      assert done + more == done + [more[0]];
    }
  }

  lemma NoFieldInTail(done: seq<Field>, tail: seq<byte>)
    requires Fields(Flatten(done) + tail, true) == done && done + Fields(tail, true) == done
    requires !WellFormed(tail, true)
    ensures tail != [] && ParseField(tail, true) == None
  {
    hide ParseField;
    assert |Fields(tail, true)| == 0;
  }

  lemma ShortAppend(number: u32, value: u64)
    requires number == 1 || number == 2
    requires value == 6 || value == 7
    ensures VarintField(number, value).raw == [8 * number, value]
  {
  }

  /** Past a malformed tail the two appended bytes complete at most one field, and not the appended one. */
  lemma TailWithAppend(tail: seq<byte>, number: u32, value: u64)
    requires tail != [] && ParseField(tail, true) == None
    requires number == 1 || number == 2
    requires value == 6 || value == 7
    requires number != Decode(tail).value / 8 % TWO_32
    ensures var more := Fields(tail + [8 * number, value], true);
            more == [] || (|more| == 1 && more[0].Number() != number)
  {
    hide ParseField, Decode;
    var all := tail + [8 * number, value];
    match ParseField(all, true)
    case None =>
    case Some(g) =>
      if |g.raw| <= |tail| {
        assert g.raw == tail[..|g.raw|];
        FieldIsLocal(all, tail, true);
        assert false;
      }
      var rest := all[|g.raw|..];
      if |g.raw| == |tail| + 1 {
        assert rest == [value];
      } else {
        assert rest == [];
      }
      NoFieldInValue(value);
      EmptyHasNoField(true);
      SwallowedNumber(tail, number, value);
  }

  lemma NoFieldInValue(value: byte)
    requires value == 6 || value == 7
    ensures ParseField([value], true) == None
  {
    hide PayloadLength;
    RoundTrip(value, []);
    assert Encode(value) + [] == [value];
  }

  lemma SwallowedNumber(tail: seq<byte>, number: u32, value: u64)
    requires tail != []
    requires number == 1 || number == 2
    requires value == 6 || value == 7
    requires number != Decode(tail).value / 8 % TWO_32
    requires ParseField(tail + [8 * number, value], true).Some?
    ensures ParseField(tail + [8 * number, value], true).value.Number() != number
  {
    hide PayloadLength, Value64;
    var all := tail + [8 * number, value];
    if Decode(tail).ok {
      assert tail[..Decode(tail).used] <= all;
      DecodeIsLocal(tail, all);
    } else {
      CompletedTag(tail, number, value);
    }
  }

  /** A tag cut short is completed by the appended tag byte, which lands in its high digits. */
  lemma CompletedTag(tail: seq<byte>, number: u32, value: u64)
    requires tail != [] && !Decode(tail).ok
    requires number == 1 || number == 2
    requires value == 6 || value == 7
    ensures var t := Decode(tail + [8 * number, value]);
            var n := t.value / 8 % TWO_32;
            t.ok ==> n == Decode(tail).value / 8 % TWO_32 || n > number
  {
    hide Decode, Value64, Group64;
    var all: seq<byte> := tail + [8 * number, value];
    CutShort(tail, all);
    if |tail| < MAX_VARINT {
      Value64Bound(tail);
      HighDigit(Value64(tail), |tail|, number);
    }
  }

  lemma CutShort(tail: seq<byte>, all: seq<byte>)
    requires tail != [] && !Decode(tail).ok && tail < all && all[|tail|] < 128
    ensures if |tail| < MAX_VARINT
            then Decode(all).ok && Decode(all).value == Decode(tail).value + Group64(all[|tail|], |tail|)
                 && Decode(tail).value == Value64(tail)
            else !Decode(all).ok
  {
    hide Accumulated, Decode, Value64, Group64;
    var k := AllContinue(tail);
    AccumulatedIsPrefix(tail, k, Decode(tail).value);
    AccumulatedExtends(tail, all, k, Decode(tail).value);
    if k == MAX_VARINT {
      ReadRunsOut(all, k, Decode(tail).value);
    } else {
      AccumulatedAll(tail, Decode(tail).value);
      assert all[k] % 128 == all[k];
      ReadOneByte(all, k, Decode(tail).value);
    }
  }

  lemma AccumulatedExtends(s: seq<byte>, t: seq<byte>, k: nat, acc: int)
    requires Accumulated(s, k, acc) && s <= t
    ensures Accumulated(t, k, acc)
  {
    hide Value64;
    assert t[..k] == s[..k];
    forall i | 0 <= i < k
      ensures t[i] >= 128
    {
      assert t[i] == s[i];
    }
  }

  lemma AccumulatedIsPrefix(s: seq<byte>, k: nat, acc: int)
    requires Accumulated(s, k, acc)
    ensures k <= |s| && k <= MAX_VARINT
  {
  }

  lemma AccumulatedAll(s: seq<byte>, acc: int)
    requires Accumulated(s, |s|, acc)
    ensures acc == Value64(s)
  {
    hide Value64;
    assert s[..|s|] == s;
  }

  lemma AllContinue(tail: seq<byte>) returns (k: nat)
    requires !Decode(tail).ok
    ensures Accumulated(tail, k, Decode(tail).value) && (k == |tail| || k == MAX_VARINT)
  {
    hide Span, Value64;
    k := Span(tail, MAX_VARINT);
    SpanShape(tail, MAX_VARINT);
  }

  lemma HighDigit(low: nat, k: nat, number: nat)
    requires 1 <= k <= 9 && low < Pow(128, k)
    requires number == 1 || number == 2
    ensures var n := (low + Group64(8 * number, k)) / 8 % TWO_32;
            n == low / 8 % TWO_32 || n > number
  {
    hide Scaled, Pow;
    if k < 9 {
      ScaledIsProduct(8 * number, k);
      PowersByteAligned(k);
      if k <= 4 {
        LandsLow(low, Pow(128, k), number);
      } else {
        LandsHigh(low, Pow(128, k), number);
      }
    }
  }

  lemma PowersByteAligned(k: nat)
    requires 1 <= k < 9
    ensures if k <= 4 then 128 <= Pow(128, k) <= 0x1000_0000 else exists q: nat :: Pow(128, k) == q * TWO_32
  {
    Pow128Values();
    if k <= 4 {
      PowMonotone(k, 4);
      PowMonotone(1, k);
    } else {
      assert Pow(128, 5) == 8 * TWO_32;
      assert Pow(128, 6) == 128 * Pow(128, 5) == 0x400 * TWO_32;
      assert Pow(128, 7) == 128 * Pow(128, 6) == 0x2_0000 * TWO_32;
      assert Pow(128, 8) == 128 * Pow(128, 7) == 0x100_0000 * TWO_32;
    }
  }

  lemma LandsLow(low: nat, p: nat, number: nat)
    requires 128 <= p <= 0x1000_0000 && low < p
    requires number == 1 || number == 2
    ensures (low + 8 * number * p) / 8 % TWO_32 > number
  {
  }

  lemma LandsHigh(low: nat, p: nat, number: nat)
    requires exists q: nat :: p == q * TWO_32
    requires number == 1 || number == 2
    ensures (low + 8 * number * p) / 8 % TWO_32 == low / 8 % TWO_32
  {
    var q: nat :| p == q * TWO_32;
    AddHigh(low, number * q);
  }

  lemma AddHigh(low: nat, m: nat)
    ensures (low + 8 * (m * TWO_32)) / 8 % TWO_32 == low / 8 % TWO_32
  {
    assert (low + 8 * (m * TWO_32)) / 8 == low / 8 + m * TWO_32;
  }
}
