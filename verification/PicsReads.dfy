/** Which product-info requests are changed and how, said of their fields and the configured tokens alone. */
module PicsReads {
  import opened Words
  import opened Varints
  import opened Messages
  import opened ProtoFields
  import opened PicsTokens

  function Numbers(number: u32): Field -> bool {
    (f: Field) => f.Number() == number && f.Wire() == 0 && f.head <= |f.raw|
  }

  function NumberIn(f: Option<Field>): Option<u64> {
    match f
    case Some(g) => if g.head <= |g.raw| then Some(Decode(g.Payload()).value) else None
    case None => None
  }

  /** The app the entry names last, cut to 32 bits, has a token, and the entry does not end up with it. */
  predicate LacksToken(content: seq<byte>, token: u32 -> u64, value: u64) {
    && WellFormed(content, false)
    && var fs := Fields(content, false);
       var app, own := NumberIn(Last(fs, Numbers(1))), NumberIn(Last(fs, Numbers(2)));
       && app.Some? && app.value % 0x1_0000_0000 != 0
       && token(app.value % 0x1_0000_0000) == value
       && value != 0 && own != Some(value)
  }

  /** A length-delimited field 1 whose content lacks the token `value`; the tag is the single byte 0x0A's. */
  predicate Lacks(f: Field, token: u32 -> u64, value: u64) {
    f.tag == 0x0A && f.head <= |f.raw| && LacksToken(Content(f), token, value)
  }

  /** The token is appended to the content, and nothing else changes. */
  predicate Gains(f: Field, g: Field, value: u64) {
    && f.head <= |f.raw|
    && g.tag == 0x0A && g.head <= |g.raw| && Content(g) == Content(f) + [0x10] + Encode(value)
  }

  lemma {:induction false} LastVarintIsLast(fs: seq<Field>, number: u32)
    ensures LastVarint(fs, number) == NumberIn(Last(fs, Numbers(number)))
  {
    if fs != [] {
      LastVarintIsLast(fs[..|fs| - 1], number);
    }
  }

  lemma MissingIff(content: seq<byte>, token: u32 -> u64, value: u64)
    ensures Missing(content, token) == Some(value) <==> LacksToken(content, token, value)
  {
    hide Fields, WellFormed, Last, LastVarint;
    if WellFormed(content, false) {
      LastVarintIsLast(Fields(content, false), 1);
      LastVarintIsLast(Fields(content, false), 2);
    }
  }

  lemma LacksIff(f: Field, token: u32 -> u64, value: u64)
    ensures Lacks(f, token, value) <==> IsAppEntry(f) && Missing(Content(f), token) == Some(value)
  {
    hide Missing, LacksToken, Content;
    if IsAppEntry(f) {
      MissingIff(Content(f), token, value);
    }
  }

  predicate SomeLacks(fs: seq<Field>, token: u32 -> u64) {
    exists i, v: u64 :: 0 <= i < |fs| && Lacks(fs[i], token, v)
  }

  lemma AnyMissingIff(fs: seq<Field>, token: u32 -> u64)
    ensures AnyMissing(fs, token) <==> SomeLacks(fs, token)
  {
    hide Missing, Lacks, Content;
    if AnyMissing(fs, token) {
      var i :| 0 <= i < |fs| && IsAppEntry(fs[i]) && Missing(Content(fs[i]), token).Some?;
      LacksIff(fs[i], token, Missing(Content(fs[i]), token).value);
    }
    if SomeLacks(fs, token) {
      var i, v: u64 :| 0 <= i < |fs| && Lacks(fs[i], token, v);
      LacksIff(fs[i], token, v);
    }
  }

  /** A request is changed exactly when it has an acceptable size, is well-formed, and some entry lacks a token. */
  lemma ChangedIff(body: seq<byte>, token: u32 -> u64)
    ensures Patched(body, token).Some? <==>
            0 < |body| <= 0x10_0000 && WellFormed(body, false) && SomeLacks(Fields(body, false), token)
  {
    hide Fields, WellFormed, PatchAll, Flatten, AnyMissing, SomeLacks;
    AnyMissingIff(Fields(body, false), token);
  }

  /** Field by field: one that lacks its token gains it, every other one keeps its bytes. */
  lemma FieldByField(body: seq<byte>, token: u32 -> u64, i: nat, v: u64)
    requires Patched(body, token).Some? && i < |Fields(body, false)|
    ensures var fs, gs := Fields(body, false), Fields(Patched(body, token).value, false);
            && WellFormed(Patched(body, token).value, false) && |gs| == |fs|
            && (Lacks(fs[i], token, v) ==> Gains(fs[i], gs[i], v))
            && ((forall w: u64 :: !Lacks(fs[i], token, w)) ==> gs[i] == fs[i])
  {
    hide Fields, WellFormed, PatchField, Missing, Lacks, Content, ParseField, WithToken, Patched, AnyMissing;
    var fs := Fields(body, false);
    OnePassIsEnough(body, token);
    FieldsAreValid(body, false);
    FlattenOfFields(body, false);
    FieldInFlatten(fs, i);
    AcceptedIsSized(body, token);
    assert ValidField(fs[i], false);
    PatchFieldTwice(fs[i], token);
    LacksIff(fs[i], token, v);
    if IsAppEntry(fs[i]) && Missing(Content(fs[i]), token).Some? {
      var w := Missing(Content(fs[i]), token).value;
      LacksIff(fs[i], token, w);
      WithTokenBytes(Content(fs[i]), w);
    }
  }

  lemma AcceptedIsSized(body: seq<byte>, token: u32 -> u64)
    requires Patched(body, token).Some?
    ensures WellFormed(body, false) && |body| <= 0x10_0000
  {
    hide Fields, WellFormed;
  }
}
