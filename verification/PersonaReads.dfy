/** What a patched persona-state message holds, field by field and bit by bit. */
module PersonaReads {
  import opened Words
  import opened Varints
  import opened Messages
  import opened ProtoFields
  import opened PersonaState
  import opened PersonaLaws
  import opened PersonaLimits

  // ---- the status flags, bit by bit ------------------------------------------------------------

  /** A message announces rich presence when it clears the app or has pairs to show for it. */
  predicate Announces(t: Tracker, appid: u32) {
    appid == 0 || (appid in t.pairs && t.pairs[appid] != [])
  }

  /**
    * Bit 12 says whether rich presence is announced, the other low 32 bits are those of `v`, and the upper half is
    * that of `v` if the bit is set and zero otherwise.
    */
  predicate FlagsBecome(v: nat, w: nat, announced: bool) {
    && w / 0x1000 % 2 == (if announced then 1 else 0)
    && w % 0x1000 == v % 0x1000
    && w / 0x2000 % 0x8_0000 == v / 0x2000 % 0x8_0000
    && w / 0x1_0000_0000 == if announced then v / 0x1_0000_0000 else 0
  }

  /** A word by its parts: twelve bits, bit 12, nineteen bits, the upper half. */
  lemma WordParts(x: nat, low: nat, bit: nat, mid: nat, up: nat)
    requires low < 0x1000 && bit < 2 && mid < 0x8_0000
    requires x == low + 0x1000 * bit + 0x2000 * mid + 0x1_0000_0000 * up
    ensures x % 0x1000 == low && x / 0x1000 % 2 == bit && x / 0x2000 % 0x8_0000 == mid && x / 0x1_0000_0000 == up
  {
    var y := bit + 2 * mid + 0x10_0000 * up;
    Divide(x, 0x1000, y, low);
    Divide(y, 2, mid + 0x8_0000 * up, bit);
    Divide(x, 0x2000, mid + 0x8_0000 * up, low + 0x1000 * bit);
    Divide(mid + 0x8_0000 * up, 0x8_0000, up, mid);
    Divide(x, 0x1_0000_0000, up, low + 0x1000 * bit + 0x2000 * mid);
  }

  lemma SplitWord(v: nat) returns (low: nat, bit: nat, mid: nat, up: nat)
    ensures low < 0x1000 && bit < 2 && mid < 0x8_0000
    ensures v == low + 0x1000 * bit + 0x2000 * mid + 0x1_0000_0000 * up
  {
    low, bit := v % 0x1000, v / 0x1000 % 2;
    var rest := v / 0x1000 / 2;
    mid, up := rest % 0x8_0000, rest / 0x8_0000;
  }

  lemma NewFlagsBecome(t: Tracker, appid: u32, v: u64)
    ensures FlagsBecome(v, NewFlags(t, appid, v), Announces(t, appid))
  {
    var low, bit, mid, up := SplitWord(v);
    WordParts(v, low, bit, mid, up);
    Divide(v, 0x2000, mid + 0x8_0000 * up, low + 0x1000 * bit);
    Divide(v, 0x1_0000_0000, up, low + 0x1000 * bit + 0x2000 * mid);
    var lower := low + 0x1000 * bit + 0x2000 * mid;
    Divide(lower, 0x2000, mid, low + 0x1000 * bit);
    WordParts(low + 0x1000 + 0x2000 * mid + 0x1_0000_0000 * up, low, 1, mid, up);
    WordParts(low + 0x2000 * mid, low, 0, mid, 0);
  }

  // ---- the rewritten entry ----------------------------------------------------------------------

  /** The content of a rich-presence field: the key under 1 and the value under 2. */
  predicate HoldsPair(content: seq<byte>, kv: KV) {
    && WellFormed(content, true)
    && var fs := Fields(content, true);
       && |fs| == 2
       && fs[0].Number() == 1 && fs[0].Wire() == 2 && fs[0].head <= |fs[0].raw| && Content(fs[0]) == kv.key
       && fs[1].Number() == 2 && fs[1].Wire() == 2 && fs[1].head <= |fs[1].raw| && Content(fs[1]) == kv.value
  }

  predicate IsPairField(f: Field, kv: KV) {
    f.Number() == 71 && f.Wire() == 2 && f.head <= |f.raw| && HoldsPair(Content(f), kv)
  }

  predicate IsScalarField(f: Field, number: u32, value: u64, wire: nat) {
    f.Number() == number && f.head <= |f.raw| && ScalarOf(f) == Some(Scalar(value, wire))
  }

  /** The fields that announce the app: none for app 0, else the app, the game, and every pair in order. */
  predicate AnnouncesApp(fs: seq<Field>, t: Tracker, appid: u32) {
    if appid == 0 then fs == []
    else
      var kvs := if appid in t.pairs then t.pairs[appid] else [];
      && |fs| == 2 + |kvs|
      && IsScalarField(fs[0], 3, appid, 0)
      && IsScalarField(fs[1], 56, appid, 1)
      && forall j :: 0 <= j < |kvs| ==> IsPairField(fs[2 + j], kvs[j])
  }

  /** The entry without its fields 3, 55, 56 and 71, followed by the announcement. */
  predicate IsRewritten(entry: seq<byte>, content: seq<byte>, t: Tracker, appid: u32) {
    && WellFormed(entry, true) && WellFormed(content, true)
    && var kept, fs := Without(Fields(entry, true), {3, 55, 56, 71}), Fields(content, true);
       kept <= fs && AnnouncesApp(fs[|kept|..], t, appid)
  }

  /**
    * What becomes of the field `f` at the front of `s`: a friends entry that names the local user, read as a length
    * cut to 32 bits and that many bytes, is rewritten, and every other field is kept.
    */
  predicate Becomes(s: seq<byte>, f: Field, g: Field, t: Tracker, appid: u32)
    requires f.head <= |s|
  {
    if f.Number() != 2 then g == f
    else
      var len := Decode(s[f.head..]);
      var at, n := f.head + len.used, len.value % 0x1_0000_0000;
      && at + n <= |s|
      && var id := GetScalar(s[at..at + n], 1);
         if id.None? || id.value.value != t.self then g == f
         else
           && g.Number() == 2 && g.Wire() == 2 && g.head <= |g.raw|
           && IsRewritten(s[at..at + n], Content(g), t, appid)
  }

  /** Field by field, the status flags left out. */
  predicate AllBecome(s: seq<byte>, gs: seq<Field>, t: Tracker, appid: u32)
    decreases |s|
  {
    match ParseField(s, true)
    case None => gs == []
    case Some(f) =>
      if f.Number() == 1 then AllBecome(s[|f.raw|..], gs, t, appid)
      else gs != [] && Becomes(s, f, gs[0], t, appid) && AllBecome(s[|f.raw|..], gs[1..], t, appid)
  }

  lemma PairIsHeld(kv: KV)
    requires |PairField(kv).raw| < TWO_63
    ensures ValidField(PairField(kv), true) && IsPairField(PairField(kv), kv)
  {
    hide Encode, ParseField, Fields, WellFormed, BytesField, Flatten;
    var k, v := BytesField(1, kv.key), BytesField(2, kv.value);
    PairLengths(kv);
    BytesFieldIsValid(1, kv.key, true);
    BytesFieldIsValid(2, kv.value, true);
    BytesFieldIsValid(71, k.raw + v.raw, true);
    ValidFieldShape(k, true);
    ValidFieldShape(v, true);
    ValidFieldShape(PairField(kv), true);
    TwoFields(k, v);
    assert ValidFields([k, v], true);
    FlattenIsWellFormed([k, v], true);
  }

  lemma PairLengths(kv: KV)
    requires |PairField(kv).raw| < TWO_63
    ensures |kv.key| < TWO_64 && |kv.value| < TWO_64
    ensures |BytesField(1, kv.key).raw + BytesField(2, kv.value).raw| < TWO_64
  {
    hide Encode;
  }

  lemma PresenceAnnounces(t: Tracker, appid: u32)
    requires |Flatten(Presence(t, appid))| < TWO_63
    ensures AnnouncesApp(Presence(t, appid), t, appid)
  {
    hide VarintField, Fixed64Field, Flatten, ParseField, IsPairField, PairField, ScalarOf;
    if appid != 0 {
      var kvs := t.PairsOf(appid);
      var fs := Presence(t, appid);
      VarintFieldIsValid(3, appid, true);
      Fixed64FieldIsValid(56, appid, true);
      ValidFieldShape(VarintField(3, appid), true);
      ValidFieldShape(Fixed64Field(56, appid), true);
      PairFieldsAt(kvs, 0);
      forall j | 0 <= j < |kvs|
        ensures IsPairField(fs[2 + j], kvs[j])
      {
        PairFieldsAt(kvs, j);
        FieldInFlatten(fs, 2 + j);
        PairIsHeld(kvs[j]);
      }
    }
  }

  lemma EntryIsRewritten(entry: seq<byte>, t: Tracker, appid: u32)
    requires WellFormed(entry, true) && |Flatten(Presence(t, appid))| < TWO_63
    ensures Announced(entry, t, appid).Some? && IsRewritten(entry, Announced(entry, t, appid).value, t, appid)
  {
    hide Fields, WellFormed, Presence, Without, Flatten, AnnouncesApp;
    EntryFields(entry, t, appid);
    PresenceAnnounces(t, appid);
    var kept := Without(Fields(entry, true), {3, 55, 56, 71});
    assert (kept + Presence(t, appid))[|kept|..] == Presence(t, appid);
  }

  lemma OneBecomes(s: seq<byte>, f: Field, t: Tracker, appid: u32) returns (g: Field)
    requires ParseField(s, true) == Some(f) && f.head <= |s| && ValidField(f, true) && f.Number() != 1
    requires Turned(s, f, t, appid).Some? && |Flatten(Presence(t, appid))| < TWO_63
    ensures ValidField(g, true) && Turned(s, f, t, appid) == Some(g.raw) && Becomes(s, f, g, t, appid)
  {
    hide ParseField, Decode, GetScalar, IsRewritten, BytesField, Flatten, Presence, Fields, WellFormed, Content,
         Announced;
    if f.Number() != 2 || !NamesSelf(EntrySpan(s, f.head).value, t) {
      g := f;
    } else {
      var entry := EntrySpan(s, f.head).value;
      SpanIsShort(s, f.head);
      AnnouncedIff(entry, t, appid);
      EntryIsRewritten(entry, t, appid);
      AnnouncedIsShort(entry, t, appid);
      var announced := Announced(entry, t, appid).value;
      g := BytesField(FIELD_FRIENDS, announced);
      BytesFieldIsValid(FIELD_FRIENDS, announced, true);
      ValidFieldShape(g, true);
    }
  }

  lemma AnnouncedIff(entry: seq<byte>, t: Tracker, appid: u32)
    ensures Announced(entry, t, appid).Some? <==> WellFormed(entry, true)
  {
    hide Fields, WellFormed, Presence, Flatten;
  }

  lemma AnnouncedIsShort(entry: seq<byte>, t: Tracker, appid: u32)
    requires |entry| < TWO_32 && |Flatten(Presence(t, appid))| < TWO_63 && Announced(entry, t, appid).Some?
    ensures |Announced(entry, t, appid).value| < TWO_64
  {
    hide Fields, WellFormed, Presence, Flatten;
    PrunedIsShorter(entry, REPLACED);
  }

  lemma {:induction false} TurnedBecomes(s: seq<byte>, t: Tracker, appid: u32) returns (gs: seq<Field>)
    requires TurnedAll(s, t, appid).Some? && |Flatten(Presence(t, appid))| < TWO_63
    ensures ValidFields(gs, true) && TurnedAll(s, t, appid) == Some(Flatten(gs)) && AllBecome(s, gs, t, appid)
    decreases |s|
  {
    hide ParseField, Turned, Flatten, Presence, Becomes;
    if s == [] {
      gs := [];
      EmptyHasNoField(true);
      FlattenSmall(Field(0, 0, []));
    } else {
      var f := ParseField(s, true).value;
      FrontField(s, f, true);
      var rest := s[|f.raw|..];
      var later := TurnedBecomes(rest, t, appid);
      if f.Number() == 1 {
        gs := later;
        DroppedStatus(s, f, t, appid);
        assert [] + Flatten(later) == Flatten(later);
      } else {
        var g := OneBecomes(s, f, t, appid);
        gs := [g] + later;
        FlattenCons(g, later);
        assert gs[1..] == later;
      }
    }
  }

  lemma DroppedStatus(s: seq<byte>, f: Field, t: Tracker, appid: u32)
    requires f.head <= |s| && f.Number() == 1
    ensures Turned(s, f, t, appid) == Some([])
  {
  }

  // ---- the whole message ---------------------------------------------------------------------------

  /** The status field of the output: none when there was none and rich presence is not announced. */
  predicate StatusBecomes(status: seq<Field>, before: Option<u64>, announced: bool) {
    if before.None? && !announced then status == []
    else
      && |status| == 1 && status[0].head <= |status[0].raw| && status[0].Number() == 1
      && exists w: u64 :: ScalarOf(status[0]) == Some(Scalar(w, 0)) && FlagsBecome(FlagsOrZero(before), w, announced)
  }

  /**
    * Every accepted message, for every app: the output is well-formed; its fields are those of the input in order,
    * each as `Becomes` says and without the status flags, and at the end the status flags as `FlagsBecome` says.
    */
  lemma PatchedReads(body: seq<byte>, t: Tracker, appid: u32) returns (gs: seq<Field>, status: seq<Field>)
    requires StaysInside(body, t) && Patched(body, t, appid).Some? && |Flatten(Presence(t, appid))| < TWO_63
    ensures var out := Patched(body, t, appid).value; WellFormed(out, true) && Fields(out, true) == gs + status
    ensures AllBecome(body, gs, t, appid)
    ensures StatusBecomes(status, StatusFlags(body), Announces(t, appid))
  {
    hide Fields, WellFormed, TurnedAll, StaysInside, Presence, Flatten, StatusFlags, StatusField, AllBecome,
         StatusBecomes, ParseField;
    gs := TurnedBecomes(body, t, appid);
    status := StatusField(t, appid, StatusFlags(body));
    StatusBytes(gs, t, appid, StatusFlags(body));
    StatusIsNoOther(t, appid, StatusFlags(body));
    StatusFieldBecomes(t, appid, StatusFlags(body));
    FlattenIsWellFormed(gs + status, true);
  }

  lemma StatusFieldBecomes(t: Tracker, appid: u32, before: Option<u64>)
    ensures StatusBecomes(StatusField(t, appid, before), before, Announces(t, appid))
  {
    hide VarintField, ScalarOf, ParseField, NewFlags, FlagsBecome;
    var v := FlagsOrZero(before);
    var w := NewFlags(t, appid, v);
    NewFlagsBecome(t, appid, v);
    VarintFieldIsValid(1, w, true);
    ValidFieldShape(VarintField(1, w), true);
    if before.None? {
      ZeroBecomes(w, Announces(t, appid));
    }
  }

  lemma ZeroBecomes(w: nat, announced: bool)
    requires FlagsBecome(0, w, announced)
    ensures w == if announced then 0x1000 else 0
  {
    var low, bit, mid, up := SplitWord(w);
    WordParts(w, low, bit, mid, up);
  }

  // ---- the status flags of the input ------------------------------------------------------------------

  /** The bytes of the message behind the tag of its field `i`. */
  function BehindTag(s: seq<byte>, fs: seq<Field>, i: nat): seq<byte>
    requires i < |fs|
  {
    var at := |Flatten(fs[..i])| + fs[i].head;
    if at <= |s| then s[at..] else []
  }

  predicate NoStatusBehind(fs: seq<Field>, i: int) {
    0 <= i && forall j :: i < j < |fs| ==> fs[j].Number() != 1
  }

  lemma {:induction false} NoStatusIff(s: seq<byte>)
    ensures StatusFlags(s) == None <==> forall i :: 0 <= i < |Fields(s, true)| ==> Fields(s, true)[i].Number() != 1
    decreases |s|
  {
    hide ParseField, Decode;
    match ParseField(s, true)
    case None =>
    case Some(f) =>
      FrontField(s, f, true);
      NoStatusIff(s[|f.raw|..]);
      var fs, later := Fields(s, true), Fields(s[|f.raw|..], true);
      assert fs[0] == f && forall j :: 0 < j < |fs| ==> fs[j] == later[j - 1];
      assert forall j :: 0 <= j < |later| ==> later[j] == fs[j + 1];
  }

  lemma {:induction false} StatusFlagAt(s: seq<byte>, i: nat)
    requires i < |Fields(s, true)| && Fields(s, true)[i].Number() == 1 && NoStatusBehind(Fields(s, true), i)
    ensures StatusFlags(s) == Some(Decode(BehindTag(s, Fields(s, true), i)).value)
    decreases |s|
  {
    hide ParseField, Decode, Flatten, BehindTag;
    var f := ParseField(s, true).value;
    var rest := s[|f.raw|..];
    FrontField(s, f, true);
    BehindTagOfRest(s, f, i);
    NoStatusIff(rest);
    var fs, later := Fields(s, true), Fields(rest, true);
    assert forall j :: 0 <= j < |later| ==> later[j] == fs[j + 1];
    if i > 0 {
      StatusFlagAt(rest, i - 1);
    }
  }

  /** The flags are the varint behind the tag of the last status field, whatever its wire type is. */
  lemma StatusFlagsAreLast(s: seq<byte>)
    ensures var fs := Fields(s, true);
            && (StatusFlags(s) == None <==> forall i :: 0 <= i < |fs| ==> fs[i].Number() != 1)
            && forall i :: 0 <= i < |fs| && fs[i].Number() == 1 && NoStatusBehind(fs, i) ==>
                 StatusFlags(s) == Some(Decode(BehindTag(s, fs, i)).value)
  {
    hide Fields, StatusFlags, Decode, BehindTag, NoStatusBehind;
    NoStatusIff(s);
    var fs := Fields(s, true);
    forall i | 0 <= i < |fs| && fs[i].Number() == 1 && NoStatusBehind(fs, i)
      ensures StatusFlags(s) == Some(Decode(BehindTag(s, fs, i)).value)
    {
      StatusFlagAt(s, i);
    }
  }

  lemma BehindTagOfRest(s: seq<byte>, f: Field, i: nat)
    requires ParseField(s, true) == Some(f) && i < |Fields(s, true)|
    ensures f.head <= |f.raw| <= |s|
    ensures var fs := Fields(s, true);
            if i == 0 then BehindTag(s, fs, i) == s[f.head..]
            else
              var later := Fields(s[|f.raw|..], true);
              i - 1 < |later| && BehindTag(s, fs, i) == BehindTag(s[|f.raw|..], later, i - 1)
  {
    hide ParseField, Flatten, Fields;
    FrontField(s, f, true);
    var fs, later := Fields(s, true), Fields(s[|f.raw|..], true);
    if i == 0 {
      assert fs[..0] == [] && fs[0] == f;
      FlattenSmall(f);
    } else {
      assert fs[i] == later[i - 1] && fs[..i] == [f] + later[..i - 1];
      FlattenCons(f, later[..i - 1]);
      DropTwice(s, |f.raw|, |Flatten(later[..i - 1])| + later[i - 1].head);
    }
  }

  lemma DropTwice(s: seq<byte>, a: nat, b: nat)
    requires a <= |s|
    ensures a + b <= |s| ==> s[a..][b..] == s[a + b..]
  {
  }
}
