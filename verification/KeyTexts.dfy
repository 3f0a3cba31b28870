/** Which key texts the packing tool takes, said without its own checks. */
module KeyTexts {
  import opened Words
  import opened TextCodecs
  import opened DepotKeys
  import opened DepotKeyTool

  /** Trimming takes away white space at both ends and nothing else. */
  lemma {:induction false} StripIs(t: Text) returns (i: nat, j: nat)
    ensures i <= j <= |t| && Strip(t) == t[i..j]
    ensures forall k :: 0 <= k < i || j <= k < |t| ==> IsSpace(t[k])
    ensures i < j ==> !IsSpace(t[i]) && !IsSpace(t[j - 1])
    decreases |t|
  {
    hide IsSpace;
    if t == [] {
      i, j := 0, 0;
    } else if IsSpace(t[0]) {
      var a, b := StripIs(t[1..]);
      i, j := a + 1, b + 1;
      assert t[1..][a..b] == t[i..j];
      forall k | 0 <= k < i || j <= k < |t|
        ensures IsSpace(t[k])
      {
        if k > 0 {
          assert t[k] == t[1..][k - 1];
        }
      }
    } else if IsSpace(t[|t| - 1]) {
      var front := t[..|t| - 1];
      i, j := StripIs(front);
      assert front[i..j] == t[i..j];
      forall k | 0 <= k < i || j <= k < |t|
        ensures IsSpace(t[k])
      {
        if k < |t| - 1 {
          assert t[k] == front[k];
        }
      }
    } else {
      i, j := 0, |t|;
    }
  }

  predicate MadeOf(s: Text, digits: set<nat>) {
    forall i :: 0 <= i < |s| ==> s[i] in digits
  }

  /** A text is taken exactly if it is 64 digits or lower-case letters a to f that no seven characters make up. */
  lemma KeyTextIff(t: Text)
    ensures KeyOf(t).Some? <==>
            var s := Clean(t);
            && |s| == 64
            && (forall i :: 0 <= i < |s| ==> 48 <= s[i] <= 57 || 97 <= s[i] <= 102)
            && forall digits: set<nat> :: MadeOf(s, digits) ==> |digits| > 7
  {
    hide Clean, FromHex;
    var s := Clean(t);
    var own := set c | c in s;
    OwnDigits(s, own);
    assert IsKeyText(s) <==> |s| == 64 && AllLowerHex(s) && |own| >= 8;
  }

  lemma OwnDigits(s: Text, own: set<nat>)
    requires own == set c | c in s
    ensures MadeOf(s, own) && forall digits: set<nat> :: MadeOf(s, digits) ==> |digits| >= |own|
  {
    forall digits: set<nat> | MadeOf(s, digits)
      ensures |digits| >= |own|
    {
      assert own <= digits;
      SubsetIsSmaller(own, digits);
    }
  }

  lemma SubsetIsSmaller(a: set<nat>, b: set<nat>)
    requires a <= b
    ensures |a| <= |b|
  {
    assert b == a + (b - a);
  }

  /** Upper-case letters are lowered and every other character is kept. */
  lemma CleanIs(t: Text, i: nat)
    requires i < |Strip(t)|
    ensures Clean(t)[i] == if 65 <= Strip(t)[i] <= 90 then Strip(t)[i] + 32 else Strip(t)[i]
  {
  }

  /** The characters that Python counts as white space. */
  lemma WhiteSpace(c: nat)
    ensures IsSpace(c) <==>
            c in {0x09, 0x0A, 0x0B, 0x0C, 0x0D, 0x1C, 0x1D, 0x1E, 0x1F, 0x20, 0x85, 0xA0, 0x1680, 0x2000, 0x2001,
                  0x2002, 0x2003, 0x2004, 0x2005, 0x2006, 0x2007, 0x2008, 0x2009, 0x200A, 0x2028, 0x2029, 0x202F,
                  0x205F, 0x3000}
  {
  }
}
