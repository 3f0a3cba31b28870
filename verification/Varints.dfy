/** Base-128 varints (unsigned LEB128) as the wire codec reads and writes them. */
module Varints {
  import opened Words

  const MAX_VARINT: nat := 10

  /** What a read yields: whether it succeeded, the value left in the output, the bytes consumed. */
  datatype Varint = Varint(ok: bool, value: u64, used: nat)

  /** How many bytes a read consumes: up to and including the first byte without a continuation bit. */
  function Span(s: seq<byte>, limit: nat): (n: nat)
    ensures n <= |s| && n <= limit
  {
    if s == [] || limit == 0 then 0
    else if s[0] < 128 then 1
    else 1 + Span(s[1..], limit - 1)
  }

  /** The number whose base-128 digits, least significant first, are the low seven bits of each byte. */
  function Base128(s: seq<byte>): nat {
    if s == [] then 0 else s[0] % 128 + 128 * Base128(s[1..])
  }

  /** A digit moved to the `k`-th place. */
  function Scaled(digit: nat, k: nat): nat {
    if k == 0 then digit else 128 * Scaled(digit, k - 1)
  }

  /**
    * A seven-bit group shifted to the `k`-th place of a 64-bit register. The tenth place is the last
    * that fits, and only the lowest bit of its group does.
    */
  function Group64(digit: nat, k: nat): nat {
    if k < 9 then Scaled(digit, k) else digit % 2 * TWO_63
  }

  /** The value a register holds after the groups of `s` (at most ten) were or-ed into it. */
  function Value64(s: seq<byte>): nat {
    if s == [] then 0
    else Value64(s[..|s| - 1]) + Group64(s[|s| - 1] % 128, |s| - 1)
  }

  /** The specification of a varint read from the front of `s`. */
  function Decode(s: seq<byte>): (v: Varint)
    ensures v.used <= |s| && v.used <= MAX_VARINT
    ensures v.ok ==> v.used > 0
    ensures s != [] ==> v.used > 0
  {
    var n := Span(s, MAX_VARINT);
    Value64Bound(s[..n]);
    Varint(n > 0 && s[n - 1] < 128, Value64(s[..n]), n)
  }

  /** The canonical encoding. */
  function Encode(v: nat): (s: seq<byte>)
    ensures |s| > 0
  {
    if v < 128 then [v] else [v % 128 + 128] + Encode(v / 128)
  }

  // ---- arithmetic of base 128 ----------------------------------------------

  lemma {:induction false} ScaledBound(digit: nat, k: nat)
    requires digit < 128
    ensures Scaled(digit, k) <= 127 * Pow(128, k)
  {
    if k > 0 {
      ScaledBound(digit, k - 1);
    }
  }

  lemma {:induction false} Value64Bound(s: seq<byte>)
    requires |s| <= MAX_VARINT
    ensures Value64(s) < TWO_64
    ensures |s| <= 9 ==> Value64(s) < Pow(128, |s|)
  {
    if s != [] {
      var k := |s| - 1;
      Value64Bound(s[..k]);
      if k < 9 {
        ScaledBound(s[k] % 128, k);
        assert Pow(128, k + 1) == 128 * Pow(128, k);
        BelowTop(k + 1);
      } else {
        BelowTop(9);
      }
    }
  }

  lemma BelowTop(k: nat)
    requires k <= 9
    ensures Pow(128, k) <= TWO_63
  {
    Pow128Values();
    PowMonotone(k, 9);
  }

  lemma Pow128Values()
    ensures Pow(128, 1) == 0x80 && Pow(128, 4) == 0x1000_0000 && Pow(128, 5) == 0x8_0000_0000
    ensures Pow(128, 9) == TWO_63 && Pow(128, 10) == 64 * TWO_64
  {
    assert Pow(128, 1) == 128 * Pow(128, 0);
    assert Pow(128, 2) == 128 * Pow(128, 1);
    assert Pow(128, 3) == 128 * Pow(128, 2);
    assert Pow(128, 4) == 128 * Pow(128, 3);
    assert Pow(128, 5) == 128 * Pow(128, 4);
    assert Pow(128, 6) == 128 * Pow(128, 5);
    assert Pow(128, 7) == 128 * Pow(128, 6);
    assert Pow(128, 8) == 128 * Pow(128, 7);
    assert Pow(128, 9) == 128 * Pow(128, 8);
    assert Pow(128, 10) == 128 * Pow(128, 9);
  }

  lemma {:induction false} PowMonotone(m: nat, n: nat)
    requires m <= n
    ensures 0 < Pow(128, m) <= Pow(128, n)
    decreases n
  {
    if m < n {
      PowMonotone(m, n - 1);
    } else if m > 0 {
      PowMonotone(m - 1, n - 1);
    }
  }

  lemma {:induction false} Base128Snoc(s: seq<byte>, b: byte)
    ensures Base128(s + [b]) == Base128(s) + Scaled(b % 128, |s|)
  {
    if s == [] {
      assert s + [b] == [b] && [b][1..] == [];
    } else {
      Base128Snoc(s[1..], b);
      assert (s + [b])[1..] == s[1..] + [b];
    }
  }

  /** Up to nine groups the register holds the number itself. */
  lemma {:induction false} Value64IsBase128(s: seq<byte>)
    requires |s| <= 9
    ensures Value64(s) == Base128(s)
  {
    if s != [] {
      var k := |s| - 1;
      Value64IsBase128(s[..k]);
      Base128Snoc(s[..k], s[k]);
      assert s[..k] + [s[k]] == s;
    }
  }

  lemma {:induction false} ScaledIsProduct(digit: nat, k: nat)
    ensures Scaled(digit, k) == digit * Pow(128, k)
  {
    if k > 0 {
      ScaledIsProduct(digit, k - 1);
      Regroup(digit, Pow(128, k - 1));
    }
  }

  lemma Regroup(x: nat, p: nat)
    ensures 128 * (x * p) == x * (128 * p)
  {
  }

  lemma TenthGroup(s: seq<byte>)
    requires |s| == MAX_VARINT
    ensures Base128(s) == Base128(s[..9]) + s[9] % 128 * TWO_63
    ensures Value64(s) == Base128(s[..9]) + s[9] % 128 % 2 * TWO_63
  {
    assert s == s[..9] + [s[9]];
    Base128Snoc(s[..9], s[9]);
    Value64IsBase128(s[..9]);
    ScaledIsProduct(s[9] % 128, 9);
    Pow128Values();
  }

  /** In general a read truncates modulo two to the 64. */
  lemma Value64Truncates(s: seq<byte>)
    requires |s| <= MAX_VARINT
    ensures exists q: nat :: Base128(s) == q * TWO_64 + Value64(s)
  {
    if |s| <= 9 {
      Value64IsBase128(s);
      assert Base128(s) == 0 * TWO_64 + Value64(s);
    } else {
      TenthGroup(s);
      var top := s[9] % 128;
      assert top == top / 2 * 2 + top % 2;
      assert Base128(s) == top / 2 * TWO_64 + Value64(s);
    }
  }

  /** A number that fits in 64 bits is not truncated. */
  lemma Value64OfFitting(s: seq<byte>)
    requires |s| <= MAX_VARINT && Base128(s) < TWO_64
    ensures Value64(s) == Base128(s)
  {
    if |s| <= 9 {
      Value64IsBase128(s);
    } else {
      TenthGroup(s);
      assert s[9] % 128 < 2;
    }
  }

  // ---- reading is local ------------------------------------------------------

  lemma {:induction false} SpanOfComplete(s: seq<byte>, n: nat, limit: nat)
    requires 0 < n <= |s| && n <= limit && s[n - 1] < 128
    requires forall i :: 0 <= i < n - 1 ==> s[i] >= 128
    ensures Span(s, limit) == n
  {
    if n > 1 {
      SpanOfComplete(s[1..], n - 1, limit - 1);
    }
  }

  lemma {:induction false} SpanOfIncomplete(s: seq<byte>, n: nat, limit: nat)
    requires n <= |s| && n <= limit && (n == |s| || n == limit)
    requires forall i :: 0 <= i < n ==> s[i] >= 128
    ensures Span(s, limit) == n
  {
    if n > 0 {
      SpanOfIncomplete(s[1..], n - 1, limit - 1);
    }
  }

  /** The bytes a read passes over: continuation bits all along, but for the last byte of a complete one. */
  lemma {:induction false} SpanShape(s: seq<byte>, limit: nat)
    ensures var n := Span(s, limit);
            && (forall i :: 0 <= i < n - 1 ==> s[i] >= 128)
            && (n == 0 || s[n - 1] >= 128 ==> n == |s| || n == limit)
  {
    if s != [] && limit > 0 && s[0] >= 128 {
      SpanShape(s[1..], limit - 1);
      var n := Span(s, limit);
      forall i | 0 <= i < n - 1
        ensures s[i] >= 128
      {
        if i > 0 {
          assert s[i] == s[1..][i - 1];
        }
      }
      if n > 1 {
        assert s[n - 1] == s[1..][n - 2];
      }
    }
  }

  /** A complete varint reads the same from any bytes that start with the ones it covers. */
  lemma DecodeIsLocal(s: seq<byte>, t: seq<byte>)
    requires Decode(s).ok && s[..Decode(s).used] <= t
    ensures Decode(t) == Decode(s)
  {
    var n := Span(s, MAX_VARINT);
    SpanShape(s, MAX_VARINT);
    assert t[..n] == s[..n];
    forall i | 0 <= i < n
      ensures t[i] == s[i]
    {
      assert t[..n][i] == s[..n][i];
    }
    SpanOfComplete(t, n, MAX_VARINT);
  }

  // ---- encoding --------------------------------------------------------------

  lemma {:induction false} EncodeDigits(v: nat)
    ensures Base128(Encode(v)) == v
  {
    if v < 128 {
      assert [v][1..] == [];
    } else {
      EncodeDigits(v / 128);
      assert Encode(v)[1..] == Encode(v / 128);
      assert (v % 128 + 128) % 128 == v % 128;
    }
  }

  lemma {:induction false} EncodeShape(v: nat)
    ensures Encode(v)[|Encode(v)| - 1] < 128
    ensures forall i :: 0 <= i < |Encode(v)| - 1 ==> Encode(v)[i] >= 128
  {
    if v >= 128 {
      EncodeShape(v / 128);
    }
  }

  /** The length of an encoding is the number of base-128 digits of the value, and one for zero. */
  lemma {:induction false} EncodeLength(v: nat, k: nat)
    requires k > 0
    ensures |Encode(v)| <= k <==> v < Pow(128, k)
  {
    if v < 128 {
      PowMonotone(1, k);
      assert Pow(128, 1) == 128;
    } else if k == 1 {
      assert Pow(128, 1) == 128;
    } else {
      EncodeLength(v / 128, k - 1);
    }
  }

  lemma EncodeFits(v: u64)
    ensures 1 <= |Encode(v)| <= MAX_VARINT
    ensures |Encode(v)| == MAX_VARINT <==> v >= TWO_63
  {
    Pow128Values();
    EncodeLength(v, 9);
    EncodeLength(v, MAX_VARINT);
  }

  /** Writing and reading back restores the value and consumes exactly what was written, whatever follows. */
  lemma RoundTrip(v: u64, t: seq<byte>)
    ensures Decode(Encode(v) + t) == Varint(true, v, |Encode(v)|)
  {
    var e := Encode(v);
    EncodeFits(v);
    EncodeShape(v);
    EncodeDigits(v);
    Value64OfFitting(e);
    SpanOfComplete(e + t, |e|, MAX_VARINT);
    assert (e + t)[..|e|] == e;
  }

  /** Every strict prefix of an encoding is rejected. */
  lemma StrictPrefixRejected(v: u64, n: nat)
    requires n < |Encode(v)|
    ensures !Decode(Encode(v)[..n]).ok
  {
    EncodeShape(v);
    var p := Encode(v)[..n];
    var k := Span(p, MAX_VARINT);
    if k > 0 {
      assert p[k - 1] == Encode(v)[k - 1];
    }
  }

  /** Non-canonical encodings are read too, but never beat the canonical one in length. */
  lemma EncodeIsShortest(s: seq<byte>)
    requires Decode(s).ok
    ensures |Encode(Decode(s).value)| <= Decode(s).used
  {
    var n := Decode(s).used;
    Value64Bound(s[..n]);
    EncodeFits(Decode(s).value);
    if n < MAX_VARINT {
      EncodeLength(Decode(s).value, n);
    }
  }

  // ---- the reader and the writer themselves -----------------------------------

  /** After `k` bytes, all with the continuation bit, the accumulator is `acc`. */
  ghost predicate Accumulated(s: seq<byte>, k: nat, acc: int) {
    && k <= |s| && k <= MAX_VARINT
    && (forall i :: 0 <= i < k ==> s[i] >= 128)
    && acc == Value64(s[..k])
  }

  lemma ReadOneByte(s: seq<byte>, k: nat, acc: u64)
    requires Accumulated(s, k, acc) && k < |s| && k < MAX_VARINT
    ensures var next := acc + Group64(s[k] % 128, k);
            && next < TWO_64
            && if s[k] < 128 then Decode(s) == Varint(true, next, k + 1) else Accumulated(s, k + 1, next)
  {
    assert s[..k + 1][..k] == s[..k];
    Value64Bound(s[..k + 1]);
    if s[k] < 128 {
      SpanOfComplete(s, k + 1, MAX_VARINT);
    }
  }

  lemma ReadRunsOut(s: seq<byte>, k: nat, acc: u64)
    requires Accumulated(s, k, acc) && (k == |s| || k == MAX_VARINT)
    ensures Decode(s) == Varint(false, acc, k)
  {
    SpanOfIncomplete(s, k, MAX_VARINT);
  }

  method ReadVarint(data: seq<byte>, start: nat) returns (ok: bool, ptr: nat, out: u64)
    requires start <= |data|
    ensures start <= ptr && Varint(ok, out, ptr - start) == Decode(data[start..])
  {
    out := 0;
    ptr := start;
    var shift := 0;
    ghost var s := data[start..];
    while ptr < |data| && shift < 64
      invariant start <= ptr <= |data| && shift == 7 * (ptr - start)
      invariant Accumulated(s, ptr - start, out)
    {
      ReadOneByte(s, ptr - start, out);
      var b := data[ptr];
      ptr := ptr + 1;
      out := out + Group64(b % 128, shift / 7);
      if b < 128 {
        return true, ptr, out;
      }
      shift := shift + 7;
    }
    ReadRunsOut(s, ptr - start, out);
    return false, ptr, out;
  }

  /** A growable byte vector that writers append to. */
  class ByteVector {
    var bytes: seq<byte>

    constructor (initial: seq<byte>)
      ensures bytes == initial
    {
      bytes := initial;
    }

    method PushBack(b: byte)
      modifies this
      ensures bytes == old(bytes) + [b]
    {
      bytes := bytes + [b];
    }

    method Insert(more: seq<byte>)
      modifies this
      ensures bytes == old(bytes) + more
    {
      bytes := bytes + more;
    }
  }

  method WriteVarint(buf: ByteVector, value: u64)
    modifies buf
    ensures buf.bytes == old(buf.bytes) + Encode(value)
  {
    var v: nat := value;
    while v >= 128
      invariant buf.bytes + Encode(v) == old(buf.bytes) + Encode(value)
    {
      buf.PushBack(v % 128 + 128);
      v := v / 128;
    }
    buf.PushBack(v % 128);
  }
}
