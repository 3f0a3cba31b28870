/** Options, machine words as bounded integers, and little-endian memory images of integers. */
module Words {

  datatype Option<+T> = None | Some(value: T)

  const TWO_32: int := 0x1_0000_0000
  const TWO_63: int := 0x8000_0000_0000_0000
  const TWO_64: int := 0x1_0000_0000_0000_0000

  type byte = b: int | 0 <= b < 256
  type u32 = w: int | 0 <= w < TWO_32
  type u64 = w: int | 0 <= w < TWO_64

  function Pow(base: nat, n: nat): nat {
    if n == 0 then 1 else base * Pow(base, n - 1)
  }

  predicate NoDuplicates(s: seq<u32>) {
    forall i, j :: 0 <= i < j < |s| ==> s[i] != s[j]
  }

  /** The last of the wanted elements. */
  function Last<T>(s: seq<T>, wanted: T -> bool): Option<T> {
    if s == [] then None
    else if wanted(s[|s| - 1]) then Some(s[|s| - 1])
    else Last(s[..|s| - 1], wanted)
  }

  /** The element at `i` is wanted and none behind it is. */
  predicate IsLastAt<T>(s: seq<T>, wanted: T -> bool, i: int) {
    0 <= i < |s| && wanted(s[i]) && forall j :: i < j < |s| ==> !wanted(s[j])
  }

  lemma {:induction false} LastAtIsLast<T>(s: seq<T>, wanted: T -> bool, i: int)
    requires IsLastAt(s, wanted, i)
    ensures Last(s, wanted) == Some(s[i])
  {
    var n := |s| - 1;
    if i < n {
      assert !wanted(s[n]);
      assert s[..n][i] == s[i];
      assert IsLastAt(s[..n], wanted, i);
      LastAtIsLast(s[..n], wanted, i);
    }
  }

  lemma {:induction false} LastStandsSomewhere<T>(s: seq<T>, wanted: T -> bool) returns (i: int)
    ensures Last(s, wanted).Some? ==> IsLastAt(s, wanted, i)
    ensures Last(s, wanted) == None ==> forall k :: 0 <= k < |s| ==> !wanted(s[k])
  {
    i := |s| - 1;
    if s != [] && !wanted(s[i]) {
      var n := i;
      i := LastStandsSomewhere(s[..n], wanted);
      assert forall k :: 0 <= k < n ==> s[..n][k] == s[k];
    }
  }

  /** The last wanted element stands at the last place where one is wanted; without such a place there is none. */
  lemma LastIff<T>(s: seq<T>, wanted: T -> bool)
    ensures Last(s, wanted) == None <==> forall i :: 0 <= i < |s| ==> !wanted(s[i])
    ensures forall i :: IsLastAt(s, wanted, i) ==> Last(s, wanted) == Some(s[i])
    ensures Last(s, wanted).Some? ==> exists i :: IsLastAt(s, wanted, i)
  {
    hide Last;
    var k := LastStandsSomewhere(s, wanted);
    forall i | IsLastAt(s, wanted, i)
      ensures Last(s, wanted) == Some(s[i])
    {
      LastAtIsLast(s, wanted, i);
    }
  }

  lemma LastSnoc<T>(s: seq<T>, x: T, wanted: T -> bool)
    ensures Last(s + [x], wanted) == if wanted(x) then Some(x) else Last(s, wanted)
  {
    assert (s + [x])[..|s|] == s;
  }

  lemma {:induction false} LastAppend<T>(a: seq<T>, b: seq<T>, wanted: T -> bool)
    ensures Last(a + b, wanted) == if Last(b, wanted).Some? then Last(b, wanted) else Last(a, wanted)
  {
    if b == [] {
      assert a + b == a;
    } else {
      assert (a + b)[..|a + b| - 1] == a + b[..|b| - 1];
      LastAppend(a, b[..|b| - 1], wanted);
    }
  }

  lemma Reassociate<T>(a: seq<T>, b: seq<T>, c: seq<T>)
    ensures a + (b + c) == a + b + c
  {
  }

  lemma SliceOfPrefix(a: seq<byte>, b: seq<byte>, lo: nat, hi: nat)
    requires lo <= hi <= |a|
    ensures (a + b)[lo..hi] == a[lo..hi]
  {
  }

  lemma SliceOfSuffix(a: seq<byte>, b: seq<byte>, lo: nat, hi: nat)
    requires lo <= hi <= |b|
    ensures (a + b)[|a| + lo..|a| + hi] == b[lo..hi]
  {
  }

  /** The `n` low-order bytes of `v`, least significant first: what `memcpy` from an integer stores. */
  function ToBytes(v: nat, n: nat): (s: seq<byte>)
    ensures |s| == n
  {
    if n == 0 then [] else [v % 256] + ToBytes(v / 256, n - 1)
  }

  /** The integer a little-endian load of all of `s` yields. */
  function FromBytes(s: seq<byte>): nat {
    if s == [] then 0 else s[0] + 256 * FromBytes(s[1..])
  }

  lemma {:induction false} FromBytesBound(s: seq<byte>)
    ensures FromBytes(s) < Pow(256, |s|)
  {
    if s != [] {
      FromBytesBound(s[1..]);
    }
  }

  lemma {:induction false} FromToBytes(v: nat, n: nat)
    requires v < Pow(256, n)
    ensures FromBytes(ToBytes(v, n)) == v
  {
    if n > 0 {
      FromToBytes(v / 256, n - 1);
      assert ToBytes(v, n)[1..] == ToBytes(v / 256, n - 1);
    }
  }

  lemma {:induction false} ToFromBytes(s: seq<byte>)
    ensures ToBytes(FromBytes(s), |s|) == s
  {
    if s != [] {
      ToFromBytes(s[1..]);
      FirstByte(s[0], FromBytes(s[1..]));
      assert s == [s[0]] + s[1..];
    }
  }

  lemma FirstByte(b: byte, rest: nat)
    ensures (b + 256 * rest) % 256 == b && (b + 256 * rest) / 256 == rest
  {
  }

  lemma Pow256Values()
    ensures Pow(256, 4) == TWO_32 && Pow(256, 8) == TWO_64
  {
    assert Pow(256, 1) == 256;
    assert Pow(256, 2) == 0x1_0000;
    assert Pow(256, 3) == 0x100_0000;
    assert Pow(256, 4) == TWO_32;
    assert Pow(256, 5) == 0x100_0000_0000;
    assert Pow(256, 6) == 0x1_0000_0000_0000;
    assert Pow(256, 7) == 0x100_0000_0000_0000;
  }

  /** A four-byte load. */
  function Load32(s: seq<byte>): (v: u32)
    requires |s| == 4
    ensures ToBytes(v, 4) == s
  {
    FromBytesBound(s);
    Pow256Values();
    ToFromBytes(s);
    FromBytes(s)
  }

  /** An eight-byte load. */
  function Load64(s: seq<byte>): (v: u64)
    requires |s| == 8
    ensures ToBytes(v, 8) == s
  {
    FromBytesBound(s);
    Pow256Values();
    ToFromBytes(s);
    FromBytes(s)
  }

  /** Loading what was stored. */
  lemma LoadStore32(v: u32)
    ensures Load32(ToBytes(v, 4)) == v
  {
    Pow256Values();
    FromToBytes(v, 4);
  }

  lemma LoadStore64(v: u64)
    ensures Load64(ToBytes(v, 8)) == v
  {
    Pow256Values();
    FromToBytes(v, 8);
  }

  /** Quotient and remainder of a number given as such. */
  lemma Divide(x: nat, n: nat, q: nat, r: nat)
    requires n > 0 && r < n && x == q * n + r
    ensures x / n == q && x % n == r
  {
    var a, b := x / n, x % n;
    assert x == n * a + b;
    assert n * (q - a) == b - r;
    MultipleIsLarge(n, q - a);
  }

  lemma MultipleIsLarge(n: int, d: int)
    requires n > 0
    ensures d >= 1 ==> n * d >= n
    ensures d <= -1 ==> n * d <= -n
  {
    if d >= 1 {
      assert n * d == n * (d - 1) + n;
    } else if d <= -1 {
      assert n * d == n * (d + 1) - n;
    }
  }

  /** Four bytes as digits to the base 256, the least significant first. */
  function Digits(a: nat, b: nat, c: nat, d: nat): nat {
    a + 0x100 * b + 0x1_0000 * c + 0x100_0000 * d
  }

  /** Words are stored with their least significant byte first. */
  lemma LittleEndian32(s: seq<byte>)
    requires |s| == 4
    ensures Load32(s) == Digits(s[0], s[1], s[2], s[3])
  {
    LowHalf(s);
  }

  lemma LittleEndian64(s: seq<byte>)
    requires |s| == 8
    ensures Load64(s) == Load32(s[..4]) + 0x1_0000_0000 * Load32(s[4..])
  {
    LowHalf(s);
  }

  /** The first four bytes and the rest. */
  lemma LowHalf(s: seq<byte>)
    requires |s| >= 4
    ensures FromBytes(s) == Digits(s[0], s[1], s[2], s[3]) + 0x1_0000_0000 * FromBytes(s[4..])
    ensures FromBytes(s[..4]) == Digits(s[0], s[1], s[2], s[3])
  {
    TwoBytes(s);
    TwoBytes(s[2..]);
    assert s[2..][2..] == s[4..];
    TwoBytes(s[..4]);
    TwoBytes(s[..4][2..]);
    assert s[..4][2..][2..] == [];
  }

  lemma TwoBytes(s: seq<byte>)
    requires |s| >= 2
    ensures FromBytes(s) == Digits(s[0], s[1], FromBytes(s[2..]), 0)
  {
    assert s[1..][1..] == s[2..];
  }
}
