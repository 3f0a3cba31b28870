/** What the decoders make of texts that no encoder writes, and what escaped JSON means. */
module TextLaws {
  import opened Words
  import opened TextCodecs

  // ---- percent encoding -------------------------------------------------------------------------

  /** Encoded text in front is decoded on its own. */
  lemma {:induction false} PercentThen(a: seq<byte>, t: seq<byte>)
    ensures Unpercent(Percent(a) + t) == a + Unpercent(t)
  {
    hide HexCharToNibble, Unpercent;
    if a == [] {
      assert Percent(a) + t == t;
    } else {
      PercentThen(a[1..], t);
      PercentOneThen(a[0], Percent(a[1..]) + t);
      assert Percent(a) + t == PercentOne(a[0]) + (Percent(a[1..]) + t);
      Reassociate([a[0]], a[1..], Unpercent(t));
      assert [a[0]] + a[1..] == a;
    }
  }

  lemma PercentOneThen(c: byte, t: seq<byte>)
    ensures Unpercent(PercentOne(c) + t) == [c] + Unpercent(t)
  {
    if IsUnreserved(c) {
      assert ([c] + t)[1..] == t;
    } else {
      assert (PercentOne(c) + t)[3..] == t;
      assert c / 16 * 16 + c % 16 == c;
    }
  }

  /**
    * Behind any encoded text: a percent sign and two characters are one byte, a plus sign is a space, a percent sign
    * with fewer than two characters behind it stands for itself, and so does every other character.
    */
  lemma DecodedForms(a: seq<byte>, c: byte, h: byte, l: byte, t: seq<byte>)
    ensures Unpercent(Percent(a) + (['%' as int, h, l] + t)) ==
            a + ([HexCharToNibble(h) * 16 + HexCharToNibble(l)] + Unpercent(t))
    ensures Unpercent(Percent(a) + (['+' as int] + t)) == a + ([' ' as int] + Unpercent(t))
    ensures |t| < 2 ==> Unpercent(Percent(a) + (['%' as int] + t)) == a + (['%' as int] + Unpercent(t))
    ensures c != '%' as int && c != '+' as int ==> Unpercent(Percent(a) + ([c] + t)) == a + ([c] + Unpercent(t))
  {
    hide HexCharToNibble, Percent;
    PercentThen(a, ['%' as int, h, l] + t);
    PercentThen(a, ['+' as int] + t);
    PercentThen(a, ['%' as int] + t);
    PercentThen(a, [c] + t);
    assert (['%' as int, h, l] + t)[3..] == t;
    assert (['+' as int] + t)[1..] == t;
    assert (['%' as int] + t)[1..] == t;
    assert ([c] + t)[1..] == t;
  }

  /** The unreserved characters of section 2.3 of RFC 3986 alone stand for themselves; others take three characters. */
  lemma EncodedForms(c: byte)
    ensures Percent([c]) == [c] <==>
            48 <= c <= 57 || 65 <= c <= 90 || 97 <= c <= 122 || c == 45 || c == 46 || c == 95 || c == 126
    ensures Percent([c]) != [c] ==>
              && |Percent([c])| == 3 && Percent([c])[0] == 37
              && forall k :: 1 <= k < 3 ==> 48 <= Percent([c])[k] <= 57 || 65 <= Percent([c])[k] <= 70
  {
    assert [c][1..] == [];
    assert Percent([c]) == PercentOne(c) + [] == PercentOne(c);
  }

  // ---- JSON: the manager's unescaper -------------------------------------------------------------

  /** Text with short escapes only is unescaped on its own. */
  lemma {:induction false} EscapedThen(a: seq<byte>, t: seq<byte>)
    requires NoOtherControl(a)
    ensures Unescape(Escape(a) + t) == a + Unescape(t)
  {
    hide Unescape, EscapeOne, IsOtherControl;
    if a == [] {
      assert Escape(a) + t == t;
    } else {
      ControlStep(a);
      EscapedThen(a[1..], t);
      UnescapeAfterEscape(a[0], Escape(a[1..]) + t);
      assert Escape(a) + t == EscapeOne(a[0]) + (Escape(a[1..]) + t);
      Reassociate([a[0]], a[1..], Unescape(t));
      assert [a[0]] + a[1..] == a;
    }
  }

  /**
    * Behind any such text: a backslash in front of a character other than b, f, n, r and t is dropped, and a backslash
    * at the end stands for itself.
    */
  lemma UnescapedForms(a: seq<byte>, c: byte, t: seq<byte>)
    requires NoOtherControl(a) && c !in {98, 102, 110, 114, 116}
    ensures Unescape(Escape(a) + ([BACKSLASH, c] + t)) == a + ([c] + Unescape(t))
    ensures Unescape(Escape(a) + [BACKSLASH]) == a + [BACKSLASH]
  {
    hide Escape, NoOtherControl;
    EscapedThen(a, [BACKSLASH, c] + t);
    EscapedThen(a, [BACKSLASH]);
    LetterAfterBackslash(c, t);
    assert Unescape([BACKSLASH]) == [BACKSLASH];
  }

  /** Quotes and backslashes, five control characters by letter, all others in hexadecimal; the rest as it is. */
  lemma EscapedForms(c: byte)
    ensures Escape([c]) ==
            if c == 34 || c == 92 then [92, c]
            else if c == 8 then [92, 98]
            else if c == 9 then [92, 116]
            else if c == 10 then [92, 110]
            else if c == 12 then [92, 102]
            else if c == 13 then [92, 114]
            else if c < 32 then [92, 117, 48, 48, 48 + c / 16, if c % 16 < 10 then 48 + c % 16 else 87 + c % 16]
            else [c]
  {
    assert [c][1..] == [];
    assert Escape([c]) == EscapeOne(c) + [] == EscapeOne(c);
  }

  // ---- JSON: what escaped text means (section 7 of RFC 8259) ---------------------------------------

  /** What a one-letter escape stands for. */
  function LetterMeaning(c: byte): Option<byte> {
    if c == '\"' as int || c == '\\' as int || c == '/' as int then Some(c)
    else if c == 'b' as int then Some(0x08)
    else if c == 'f' as int then Some(0x0C)
    else if c == 'n' as int then Some(0x0A)
    else if c == 'r' as int then Some(0x0D)
    else if c == 't' as int then Some(0x09)
    else None
  }

  function Prepend(c: byte, rest: Option<seq<byte>>): Option<seq<byte>> {
    match rest
    case Some(s) => Some([c] + s)
    case None => None
  }

  /** The bytes a string body stands for; none when it is malformed or holds a hexadecimal escape above U+007F. */
  function Meaning(t: seq<byte>): Option<seq<byte>>
    decreases |t|
  {
    if t == [] then Some([])
    else if t[0] < 0x20 || t[0] == '\"' as int then None
    else if t[0] != '\\' as int then Prepend(t[0], Meaning(t[1..]))
    else if |t| < 2 then None
    else if t[1] != 'u' as int then
      match LetterMeaning(t[1])
      case Some(c) => Prepend(c, Meaning(t[2..]))
      case None => None
    else if |t| < 6 || t[2] != '0' as int || t[3] != '0' as int || !AllHex(t[4..6]) then None
    else if FromHex(t[4..6])[0] >= 0x80 then None
    else Prepend(FromHex(t[4..6])[0], Meaning(t[6..]))
  }

  /** Escaped text means the original, whatever characters it holds. */
  lemma {:induction false} EscapedMeansOriginal(s: seq<byte>)
    ensures Meaning(Escape(s)) == Some(s)
  {
    hide EscapeOne, Meaning;
    if s == [] {
      NothingMeans();
    } else {
      EscapedMeansOriginal(s[1..]);
      OneMeans(s[0], Escape(s[1..]));
      assert s == [s[0]] + s[1..];
    }
  }

  lemma NothingMeans()
    ensures Meaning([]) == Some([])
  {
  }

  lemma OneMeans(c: byte, rest: seq<byte>)
    ensures Meaning(EscapeOne(c) + rest) == Prepend(c, Meaning(rest))
  {
    var t := EscapeOne(c) + rest;
    if ShortEscape(c) != 0 {
      assert t[2..] == rest;
    } else if c < 0x20 {
      var h, l := LowerDigit(c / 16), LowerDigit(c % 16);
      assert t[4..6] == [h, l] && t[6..] == rest;
      PairMeans(c, h, l);
    } else {
      assert t[1..] == rest;
    }
  }

  lemma PairMeans(c: byte, h: byte, l: byte)
    requires h == LowerDigit(c / 16) && l == LowerDigit(c % 16)
    ensures AllHex([h, l]) && FromHex([h, l]) == [c]
  {
    assert [h, l][2..] == [];
    assert c / 16 * 16 + c % 16 == c;
  }
}
