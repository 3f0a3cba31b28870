/** Hex, percent and JSON text codecs, over texts as byte strings. */
module TextCodecs {
  import opened Words

  // ---- characters ---------------------------------------------------------------------------

  predicate IsDigit(c: int) { '0' as int <= c <= '9' as int }

  predicate IsLowerHex(c: int) { IsDigit(c) || 'a' as int <= c <= 'f' as int }

  predicate IsHex(c: int) { IsLowerHex(c) || 'A' as int <= c <= 'F' as int }

  /** `isalnum` in the C locale. */
  predicate IsAlnum(c: int) {
    IsDigit(c) || 'a' as int <= c <= 'z' as int || 'A' as int <= c <= 'Z' as int
  }

  function ToLower(c: byte): byte {
    if 'A' as int <= c <= 'Z' as int then c + 32 else c
  }

  /** The value of a hex digit; zero for any other character. */
  function HexCharToNibble(c: byte): (n: byte)
    ensures n < 16 && (!IsHex(c) ==> n == 0)
  {
    if IsDigit(c) then c - '0' as int
    else if 'a' as int <= c <= 'f' as int then c - 'a' as int + 10
    else if 'A' as int <= c <= 'F' as int then c - 'A' as int + 10
    else 0
  }

  function LowerDigit(n: byte): (c: byte)
    requires n < 16
    ensures IsLowerHex(c) && HexCharToNibble(c) == n
  {
    if n < 10 then '0' as int + n else 'a' as int + n - 10
  }

  function UpperDigit(n: byte): (c: byte)
    requires n < 16
    ensures (IsDigit(c) || 'A' as int <= c <= 'F' as int) && HexCharToNibble(c) == n
  {
    if n < 10 then '0' as int + n else 'A' as int + n - 10
  }

  // ---- hex -----------------------------------------------------------------------------------------

  function ToHex(bytes: seq<byte>): (text: seq<byte>)
    ensures |text| == 2 * |bytes|
  {
    if bytes == [] then []
    else ToHex(bytes[..|bytes| - 1]) + [LowerDigit(bytes[|bytes| - 1] / 16), LowerDigit(bytes[|bytes| - 1] % 16)]
  }

  /** Pairs of characters; an odd one at the end is dropped. */
  function FromHex(text: seq<byte>): (bytes: seq<byte>)
    ensures |bytes| == |text| / 2
  {
    if |text| < 2 then []
    else [HexCharToNibble(text[0]) * 16 + HexCharToNibble(text[1])] + FromHex(text[2..])
  }

  lemma {:induction false} FromHexSnoc(text: seq<byte>, a: byte, b: byte)
    requires |text| % 2 == 0
    ensures FromHex(text + [a, b]) == FromHex(text) + [HexCharToNibble(a) * 16 + HexCharToNibble(b)]
    decreases |text|
  {
    hide HexCharToNibble;
    var all := text + [a, b];
    if text == [] {
      assert all == [a, b] && [a, b][2..] == [];
    } else {
      FromHexSnoc(text[2..], a, b);
      assert all[2..] == text[2..] + [a, b] && all[0] == text[0] && all[1] == text[1];
    }
  }

  lemma {:induction false} HexRoundTrip(bytes: seq<byte>)
    ensures FromHex(ToHex(bytes)) == bytes
  {
    if bytes != [] {
      var front, b := bytes[..|bytes| - 1], bytes[|bytes| - 1];
      HexRoundTrip(front);
      FromHexSnoc(ToHex(front), LowerDigit(b / 16), LowerDigit(b % 16));
      assert b / 16 * 16 + b % 16 == b;
    }
  }

  predicate AllHex(text: seq<byte>) {
    forall i :: 0 <= i < |text| ==> IsHex(text[i])
  }

  function Lowered(text: seq<byte>): seq<byte> {
    seq(|text|, i requires 0 <= i < |text| => ToLower(text[i]))
  }

  lemma NibbleToDigit(c: byte)
    requires IsHex(c)
    ensures LowerDigit(HexCharToNibble(c)) == ToLower(c)
  {
  }

  lemma PairOfDigits(a: byte, b: byte)
    requires IsHex(a) && IsHex(b)
    ensures var v := HexCharToNibble(a) * 16 + HexCharToNibble(b);
            v < 256 && LowerDigit(v / 16) == ToLower(a) && LowerDigit(v % 16) == ToLower(b)
  {
    hide HexCharToNibble, LowerDigit, ToLower;
    NibbleToDigit(a);
    NibbleToDigit(b);
    var x, y := HexCharToNibble(a), HexCharToNibble(b);
    assert (x * 16 + y) / 16 == x && (x * 16 + y) % 16 == y;
  }

  lemma ToHexSnoc(bytes: seq<byte>, b: byte)
    ensures ToHex(bytes + [b]) == ToHex(bytes) + [LowerDigit(b / 16), LowerDigit(b % 16)]
  {
    hide LowerDigit;
    assert (bytes + [b])[..|bytes|] == bytes;
  }

  /** Decoding hex text and encoding it again gives the text in lower case. */
  lemma {:induction false} HexTextRoundTrip(text: seq<byte>)
    requires AllHex(text) && |text| % 2 == 0
    ensures ToHex(FromHex(text)) == Lowered(text)
    decreases |text|
  {
    hide HexCharToNibble, LowerDigit, ToLower, ToHex, FromHex, IsHex;
    if text == [] {
      NoHex();
    } else {
      var n := |text| - 2;
      var front, a, b := text[..n], text[n], text[n + 1];
      assert text == front + [a, b];
      HexTextRoundTrip(front);
      FromHexSnoc(front, a, b);
      PairOfDigits(a, b);
      ToHexSnoc(FromHex(front), HexCharToNibble(a) * 16 + HexCharToNibble(b));
      assert Lowered(text) == Lowered(front) + [ToLower(a), ToLower(b)];
    }
  }

  lemma NoHex()
    ensures FromHex([]) == [] && ToHex([]) == []
  {
  }

  lemma FromHexStep(hex: seq<byte>, i: nat)
    requires i + 1 < |hex|
    ensures FromHex(hex[i..]) == [HexCharToNibble(hex[i]) * 16 + HexCharToNibble(hex[i + 1])] + FromHex(hex[i + 2..])
  {
    hide HexCharToNibble;
    assert hex[i..][2..] == hex[i + 2..];
  }

  method HexToBytes(hex: seq<byte>) returns (bytes: seq<byte>)
    ensures bytes == FromHex(hex)
  {
    bytes := [];
    var i := 0;
    while i + 1 < |hex|
      invariant i <= |hex| && i % 2 == 0
      invariant bytes + FromHex(hex[i..]) == FromHex(hex)
    {
      var high, low := HexCharToNibble(hex[i]), HexCharToNibble(hex[i + 1]);
      FromHexStep(hex, i);
      Reassociate(bytes, [high * 16 + low], FromHex(hex[i + 2..]));
      bytes := bytes + [high * 16 + low];
      i := i + 2;
    }
    assert bytes + [] == bytes;
  }

  method BytesToHex(data: seq<byte>) returns (out: seq<byte>)
    ensures out == ToHex(data)
  {
    out := [];
    var i := 0;
    while i < |data|
      invariant i <= |data| && out == ToHex(data[..i])
    {
      assert data[..i + 1][..i] == data[..i];
      out := out + [LowerDigit(data[i] / 16), LowerDigit(data[i] % 16)];
      i := i + 1;
    }
    assert data[..i] == data;
  }

  // ---- percent encoding (sections 2.1 and 2.3 of RFC 3986) ----------------------------------------------

  predicate IsUnreserved(c: byte) {
    IsAlnum(c) || c == '-' as int || c == '_' as int || c == '.' as int || c == '~' as int
  }

  function PercentOne(c: byte): seq<byte> {
    if IsUnreserved(c) then [c] else ['%' as int, UpperDigit(c / 16), UpperDigit(c % 16)]
  }

  function Percent(s: seq<byte>): seq<byte> {
    if s == [] then [] else PercentOne(s[0]) + Percent(s[1..])
  }

  /** Decoding; a percent sign too near the end stands for itself, and a plus sign for a space. */
  function Unpercent(t: seq<byte>): seq<byte>
    decreases |t|
  {
    if t == [] then []
    else if t[0] == '%' as int && 2 < |t| then
      [HexCharToNibble(t[1]) * 16 + HexCharToNibble(t[2])] + Unpercent(t[3..])
    else if t[0] == '+' as int then [' ' as int] + Unpercent(t[1..])
    else [t[0]] + Unpercent(t[1..])
  }

  lemma {:induction false} PercentRoundTrip(s: seq<byte>)
    ensures Unpercent(Percent(s)) == s
  {
    if s != [] {
      PercentRoundTrip(s[1..]);
      var rest := Percent(s[1..]);
      if IsUnreserved(s[0]) {
        assert ([s[0]] + rest)[1..] == rest;
      } else {
        assert (PercentOne(s[0]) + rest)[3..] == rest;
        assert s[0] / 16 * 16 + s[0] % 16 == s[0];
      }
    }
  }

  lemma PercentStep(value: seq<byte>, i: nat)
    requires i < |value|
    ensures Percent(value[i..]) == PercentOne(value[i]) + Percent(value[i + 1..])
  {
    assert value[i..][1..] == value[i + 1..];
  }

  method UrlEncode(value: seq<byte>) returns (escaped: seq<byte>)
    ensures escaped == Percent(value)
  {
    escaped := [];
    var i := 0;
    assert value[0..] == value && escaped + Percent(value) == Percent(value);
    while i < |value|
      invariant i <= |value| && escaped + Percent(value[i..]) == Percent(value)
    {
      hide Percent, IsUnreserved, UpperDigit;
      PercentStep(value, i);
      var c := value[i];
      Reassociate(escaped, PercentOne(c), Percent(value[i + 1..]));
      if IsUnreserved(c) {
        escaped := escaped + [c];
      } else {
        escaped := escaped + ['%' as int, UpperDigit(c / 16), UpperDigit(c % 16)];
      }
      i := i + 1;
    }
    assert escaped + [] == escaped;
  }

  lemma UnpercentStep(text: seq<byte>, i: nat)
    requires i < |text|
    ensures Unpercent(text[i..]) ==
            if text[i] == '%' as int && i + 2 < |text| then
              [HexCharToNibble(text[i + 1]) * 16 + HexCharToNibble(text[i + 2])] + Unpercent(text[i + 3..])
            else if text[i] == '+' as int then [' ' as int] + Unpercent(text[i + 1..])
            else [text[i]] + Unpercent(text[i + 1..])
  {
    if text[i] == '%' as int && i + 2 < |text| {
      assert text[i..][3..] == text[i + 3..];
    } else {
      assert text[i..][1..] == text[i + 1..];
    }
  }

  method UrlDecode(text: seq<byte>) returns (out: seq<byte>)
    ensures out == Unpercent(text)
  {
    out := [];
    var i := 0;
    assert text[0..] == text && out + Unpercent(text) == Unpercent(text);
    while i < |text|
      invariant i <= |text| && out + Unpercent(text[i..]) == Unpercent(text)
    {
      hide Unpercent, HexCharToNibble;
      UnpercentStep(text, i);
      ghost var before := out;
      ghost var one: seq<byte>;
      if text[i] == '%' as int && i + 2 < |text| {
        one := [HexCharToNibble(text[i + 1]) * 16 + HexCharToNibble(text[i + 2])];
        out := out + [HexCharToNibble(text[i + 1]) * 16 + HexCharToNibble(text[i + 2])];
        i := i + 3;
      } else if text[i] == '+' as int {
        one := [' ' as int];
        out := out + [' ' as int];
        i := i + 1;
      } else {
        one := [text[i]];
        out := out + [text[i]];
        i := i + 1;
      }
      Reassociate(before, one, Unpercent(text[i..]));
    }
    assert out + [] == out;
  }

  // ---- JSON strings (section 7 of RFC 8259) ---------------------------------------------------------------

  const QUOTE: byte := '\"' as int
  const BACKSLASH: byte := '\\' as int

  /** The letter of a short escape; zero when the character has none. */
  function ShortEscape(c: byte): byte {
    if c == QUOTE || c == BACKSLASH then c
    else if c == 8 then 'b' as int
    else if c == 12 then 'f' as int
    else if c == 10 then 'n' as int
    else if c == 13 then 'r' as int
    else if c == 9 then 't' as int
    else 0
  }

  function EscapeOne(c: byte): seq<byte> {
    if ShortEscape(c) != 0 then [BACKSLASH, ShortEscape(c)]
    else if c < 0x20 then
      [BACKSLASH, 'u' as int, '0' as int, '0' as int, LowerDigit(c / 16), LowerDigit(c % 16)]
    else [c]
  }

  function Escape(s: seq<byte>): seq<byte> {
    if s == [] then [] else EscapeOne(s[0]) + Escape(s[1..])
  }

  /** What the unescaper makes of the character after a backslash. */
  function UnescapeLetter(c: byte): byte {
    if c == 'b' as int then 8
    else if c == 'f' as int then 12
    else if c == 'n' as int then 10
    else if c == 'r' as int then 13
    else if c == 't' as int then 9
    else c
  }

  function Unescape(t: seq<byte>): seq<byte>
    decreases |t|
  {
    if t == [] then []
    else if t[0] == BACKSLASH && 1 < |t| then [UnescapeLetter(t[1])] + Unescape(t[2..])
    else [t[0]] + Unescape(t[1..])
  }

  lemma EscapeStep(text: seq<byte>, i: nat)
    requires i < |text|
    ensures Escape(text[i..]) == EscapeOne(text[i]) + Escape(text[i + 1..])
  {
    assert text[i..][1..] == text[i + 1..];
  }

  method EscapeJson(text: seq<byte>) returns (out: seq<byte>)
    ensures out == Escape(text)
  {
    out := [];
    var i := 0;
    assert text[0..] == text && out + Escape(text) == Escape(text);
    while i < |text|
      invariant i <= |text| && out + Escape(text[i..]) == Escape(text)
    {
      hide Escape, ShortEscape;
      EscapeStep(text, i);
      var c := text[i];
      Reassociate(out, EscapeOne(c), Escape(text[i + 1..]));
      if ShortEscape(c) != 0 {
        out := out + [BACKSLASH, ShortEscape(c)];
      } else if c < 0x20 {
        out := out + [BACKSLASH, 'u' as int, '0' as int, '0' as int, LowerDigit(c / 16), LowerDigit(c % 16)];
      } else {
        out := out + [c];
      }
      i := i + 1;
    }
    assert out + [] == out;
  }

  lemma UnescapeStep(text: seq<byte>, i: nat)
    requires i < |text|
    ensures Unescape(text[i..]) ==
            if text[i] == BACKSLASH && i + 1 < |text| then [UnescapeLetter(text[i + 1])] + Unescape(text[i + 2..])
            else [text[i]] + Unescape(text[i + 1..])
  {
    if text[i] == BACKSLASH && i + 1 < |text| {
      assert text[i..][2..] == text[i + 2..];
    } else {
      assert text[i..][1..] == text[i + 1..];
    }
  }

  method UnescapeJson(text: seq<byte>) returns (out: seq<byte>)
    ensures out == Unescape(text)
  {
    out := [];
    var i := 0;
    assert text[0..] == text && out + Unescape(text) == Unescape(text);
    while i < |text|
      invariant i <= |text| && out + Unescape(text[i..]) == Unescape(text)
    {
      hide Unescape, UnescapeLetter;
      UnescapeStep(text, i);
      ghost var before := out;
      ghost var one: seq<byte>;
      if text[i] == BACKSLASH && i + 1 < |text| {
        i := i + 1;
        one := [UnescapeLetter(text[i])];
        out := out + [UnescapeLetter(text[i])];
      } else {
        one := [text[i]];
        out := out + [text[i]];
      }
      i := i + 1;
      Reassociate(before, one, Unescape(text[i..]));
    }
    assert out + [] == out;
  }

  /** A control character without a short escape. */
  predicate IsOtherControl(c: byte) {
    c < 0x20 && c !in {8, 9, 10, 12, 13}
  }

  predicate NoOtherControl(s: seq<byte>) {
    forall i :: 0 <= i < |s| ==> !IsOtherControl(s[i])
  }

  /** The unescaper reads a hexadecimal escape as its letters, four characters too many. */
  lemma UnescapeAfterEscape(c: byte, rest: seq<byte>)
    ensures var t := EscapeOne(c) + rest;
            if IsOtherControl(c)
            then Unescape(t) == ['u' as int, '0' as int, '0' as int, LowerDigit(c / 16), LowerDigit(c % 16)]
                                + Unescape(rest)
            else Unescape(t) == [c] + Unescape(rest)
  {
    hide Unescape, LowerDigit;
    if IsOtherControl(c) {
      HexEscapeReads(LowerDigit(c / 16), LowerDigit(c % 16), rest);
    } else if ShortEscape(c) != 0 {
      LetterAfterBackslash(ShortEscape(c), rest);
    } else {
      PlainFirst(c, rest);
    }
  }

  lemma LetterAfterBackslash(c: byte, rest: seq<byte>)
    ensures Unescape([BACKSLASH, c] + rest) == [UnescapeLetter(c)] + Unescape(rest)
  {
    assert ([BACKSLASH, c] + rest)[2..] == rest;
  }

  lemma {:induction false} PlainRun(run: seq<byte>, rest: seq<byte>)
    requires forall i :: 0 <= i < |run| ==> run[i] != BACKSLASH
    ensures Unescape(run + rest) == run + Unescape(rest)
  {
    hide Unescape;
    if run == [] {
      assert run + rest == rest;
    } else {
      PlainRun(run[1..], rest);
      PlainFirst(run[0], run[1..] + rest);
      assert run + rest == [run[0]] + (run[1..] + rest);
    }
  }

  lemma HexEscapeReads(a: byte, b: byte, rest: seq<byte>)
    requires a != BACKSLASH && b != BACKSLASH
    ensures Unescape([BACKSLASH, 'u' as int, '0' as int, '0' as int, a, b] + rest) ==
            ['u' as int, '0' as int, '0' as int, a, b] + Unescape(rest)
  {
    hide Unescape;
    var head: seq<byte>, one: seq<byte> := [BACKSLASH, 'u' as int], ['u' as int];
    var run: seq<byte> := ['0' as int, '0' as int, a, b];
    PlainRun(run, rest);
    LetterAfterBackslash('u' as int, run + rest);
    Reassociate(head, run, rest);
    Reassociate(one, run, Unescape(rest));
    assert head + run == [BACKSLASH, 'u' as int, '0' as int, '0' as int, a, b];
    assert one + run == ['u' as int, '0' as int, '0' as int, a, b];
  }

  lemma PlainFirst(c: byte, rest: seq<byte>)
    requires c != BACKSLASH
    ensures Unescape([c] + rest) == [c] + Unescape(rest)
  {
    assert ([c] + rest)[1..] == rest;
  }

  lemma ControlStep(s: seq<byte>)
    requires s != []
    ensures NoOtherControl(s) <==> !IsOtherControl(s[0]) && NoOtherControl(s[1..])
  {
    hide IsOtherControl;
    var rest := s[1..];
    if NoOtherControl(s) {
      forall i | 0 <= i < |rest|
        ensures !IsOtherControl(rest[i])
      {
        assert rest[i] == s[i + 1];
      }
    }
  }

  /** Unescaping undoes escaping exactly if all control characters have a short escape, else the text grows. */
  lemma {:induction false} JsonRoundTripIff(s: seq<byte>)
    ensures |Unescape(Escape(s))| >= |s|
    ensures Unescape(Escape(s)) == s <==> NoOtherControl(s)
    ensures |Unescape(Escape(s))| == |s| <==> NoOtherControl(s)
  {
    if s != [] {
      var rest := s[1..];
      JsonRoundTripIff(rest);
      hide Unescape, EscapeOne, IsOtherControl;
      UnescapeAfterEscape(s[0], Escape(rest));
      assert s == [s[0]] + rest;
      ControlStep(s);
    }
  }

  /** Text that may stand between the quotes of a JSON string. */
  predicate IsStringBody(t: seq<byte>)
    decreases |t|
  {
    if t == [] then true
    else if t[0] == BACKSLASH then 1 < |t| && IsStringBody(t[2..])
    else t[0] != QUOTE && t[0] >= 0x20 && IsStringBody(t[1..])
  }

  /** Escaped text never contains a bare quote or a raw control character. */
  lemma {:induction false} EscapedIsStringBody(s: seq<byte>)
    ensures IsStringBody(Escape(s))
  {
    if s != [] {
      EscapedIsStringBody(s[1..]);
      EscapedOneThen(s[0], Escape(s[1..]));
    }
  }

  lemma EscapedOneThen(c: byte, rest: seq<byte>)
    requires IsStringBody(rest)
    ensures IsStringBody(EscapeOne(c) + rest)
  {
    var t := EscapeOne(c) + rest;
    if IsOtherControl(c) {
      HexEscapeThen(LowerDigit(c / 16), LowerDigit(c % 16), rest);
    } else if ShortEscape(c) != 0 {
      assert t[2..] == rest;
    } else {
      assert t[1..] == rest;
    }
  }

  lemma HexEscapeThen(a: byte, b: byte, rest: seq<byte>)
    requires IsStringBody(rest) && IsLowerHex(a) && IsLowerHex(b)
    ensures IsStringBody([BACKSLASH, 'u' as int, '0' as int, '0' as int, a, b] + rest)
  {
    hide IsStringBody;
    PlainThen(b, rest);
    PlainThen(a, [b] + rest);
    PlainThen('0' as int, [a] + ([b] + rest));
    PlainThen('0' as int, ['0' as int] + ([a] + ([b] + rest)));
    EscapeThen('u' as int, ['0' as int] + (['0' as int] + ([a] + ([b] + rest))));
    OneByOne(a, b, rest);
  }

  lemma EscapeThen(c: byte, rest: seq<byte>)
    requires IsStringBody(rest)
    ensures IsStringBody([BACKSLASH, c] + rest)
  {
    assert ([BACKSLASH, c] + rest)[2..] == rest;
  }

  lemma OneByOne(a: byte, b: byte, rest: seq<byte>)
    ensures [BACKSLASH, 'u' as int] + (['0' as int] + (['0' as int] + ([a] + ([b] + rest)))) ==
            [BACKSLASH, 'u' as int, '0' as int, '0' as int, a, b] + rest
  {
  }

  lemma PlainThen(c: byte, rest: seq<byte>)
    requires IsStringBody(rest) && c != BACKSLASH && c != QUOTE && c >= 0x20
    ensures IsStringBody([c] + rest)
  {
    assert ([c] + rest)[1..] == rest;
  }
}
