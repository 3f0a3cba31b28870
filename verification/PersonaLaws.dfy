/** What patching a persona-state message does and undoes, over all messages and all apps. */
module PersonaLaws {
  import opened Words
  import opened Varints
  import opened Messages
  import opened ProtoFields
  import opened PersonaState

  /** Sizes the program can hold: a body counted in 32 bits, an announcement that is addressable. */
  predicate Sized(body: seq<byte>, t: Tracker, appid: u32) {
    |body| < TWO_32 && |Flatten(Presence(t, appid))| < TWO_63
  }

  // ---- messages whose friends entries are delimited ------------------------------------------

  /** A friends entry is length-delimited, as its schema says, and its length fits 32 bits. */
  predicate IsDelimited(f: Field) {
    f.Number() == FIELD_FRIENDS ==> f.Wire() == WIRE_LENGTH_DELIM && f.head <= |f.raw| && |Content(f)| < TWO_32
  }

  predicate FriendsDelimited(fs: seq<Field>) {
    forall i :: 0 <= i < |fs| ==> IsDelimited(fs[i])
  }

  predicate Delimited(body: seq<byte>) {
    FriendsDelimited(Fields(body, true))
  }

  /** A friends entry that names the local user. */
  predicate IsSelf(f: Field, t: Tracker) {
    && f.head <= |f.raw|
    && f.Number() == FIELD_FRIENDS
    && NamesSelf(Content(f), t)
  }

  /** What becomes of one field: dropped, rewritten, kept, or a failure when the entry is malformed. */
  function Rewrite(f: Field, t: Tracker, appid: u32): Option<seq<Field>> {
    if f.Number() == FIELD_STATUS_FLAGS then Some([])
    else if !IsSelf(f, t) then Some([f])
    else
      match Announced(Content(f), t, appid)
      case None => None
      case Some(entry) => Some([BytesField(FIELD_FRIENDS, entry)])
  }

  function RewriteAll(fs: seq<Field>, t: Tracker, appid: u32): Option<seq<Field>> {
    if fs == [] then Some([])
    else
      var front := RewriteAll(fs[..|fs| - 1], t, appid);
      var last := Rewrite(fs[|fs| - 1], t, appid);
      if front == None || last == None then None else Some(front.value + last.value)
  }

  /** The patched message in terms of fields. */
  function FieldwisePatched(body: seq<byte>, t: Tracker, appid: u32): Option<seq<byte>> {
    var fs := RewriteAll(Fields(body, true), t, appid);
    if !WellFormed(body, true) || fs == None then None
    else Some(Flatten(fs.value + StatusField(t, appid, StatusFlags(body))))
  }

  lemma RewriteSnoc(fs: seq<Field>, f: Field, t: Tracker, appid: u32)
    ensures RewriteAll(fs + [f], t, appid) ==
            (var front, last := RewriteAll(fs, t, appid), Rewrite(f, t, appid);
             if front == None || last == None then None else Some(front.value + last.value))
  {
    hide Rewrite;
    assert (fs + [f])[..|fs|] == fs;
  }

  /** On a delimited field the patcher reads the field's own content. */
  lemma TurnedField(s: seq<byte>, f: Field, t: Tracker, appid: u32)
    requires ParseField(s, true) == Some(f) && IsDelimited(f)
    ensures 0 < f.head <= |f.raw| <= |s|
    ensures f.Number() == FIELD_FRIENDS ==> EntrySpan(s, f.head) == Some(Content(f))
    ensures Turned(s, f, t, appid) ==
            match Rewrite(f, t, appid) case None => None case Some(gs) => Some(Flatten(gs))
  {
    hide ParseField, Decode, Content, NamesSelf, Announced, Flatten, BytesField;
    FlattenSmall(f);
    if f.Number() == FIELD_FRIENDS {
      assert s[0..] == s;
      var at, end := ContentInPlace(s, 0, f, true);
      if Announced(Content(f), t, appid).Some? {
        FlattenSmall(BytesField(FIELD_FRIENDS, Announced(Content(f), t, appid).value));
      }
    }
  }

  lemma RestDelimited(s: seq<byte>, f: Field)
    requires ParseField(s, true) == Some(f) && Delimited(s)
    ensures 0 < f.head <= |f.raw| <= |s|
    ensures IsDelimited(f) && Delimited(s[|f.raw|..])
    ensures Fields(s, true) == [f] + Fields(s[|f.raw|..], true)
    ensures WellFormed(s, true) <==> WellFormed(s[|f.raw|..], true)
  {
    hide ParseField, IsDelimited, Fields, WellFormed, FriendsDelimited;
    FrontField(s, f, true);
    DelimitedCons(f, Fields(s[|f.raw|..], true));
  }

  lemma DelimitedCons(f: Field, fs: seq<Field>)
    requires FriendsDelimited([f] + fs)
    ensures IsDelimited(f) && FriendsDelimited(fs)
  {
    hide IsDelimited;
    var all := [f] + fs;
    assert IsDelimited(all[0]);
    forall i | 0 <= i < |fs|
      ensures IsDelimited(fs[i])
    {
      assert IsDelimited(all[i + 1]);
    }
  }

  lemma {:induction false} TurnedIsFieldwise(s: seq<byte>, t: Tracker, appid: u32)
    requires Delimited(s)
    ensures StaysInside(s, t)
    ensures TurnedAll(s, t, appid) ==
            var gs := RewriteAll(Fields(s, true), t, appid);
            if WellFormed(s, true) && gs.Some? then Some(Flatten(gs.value)) else None
    decreases |s|
  {
    hide ParseField, Decode, Turned, Rewrite, RewriteAll, Flatten, EntrySpan, Delimited, IsDelimited;
    match ParseField(s, true)
    case None =>
      if s == [] {
        RewriteNone(t, appid);
        FlattenSmall(Field(0, 0, []));
      }
    case Some(f) =>
      RestDelimited(s, f);
      var rest := s[|f.raw|..];
      TurnedField(s, f, t, appid);
      TurnedIsFieldwise(rest, t, appid);
      RewriteOne(f, t, appid);
      RewriteAppend([f], Fields(rest, true), t, appid);
      var own, gs := Rewrite(f, t, appid), RewriteAll(Fields(rest, true), t, appid);
      if own.Some? && gs.Some? {
        FlattenAppend(own.value, gs.value);
      }
  }

  /** On delimited messages the patcher stays inside the body and rewrites it field by field. */
  lemma PatchedIsFieldwise(body: seq<byte>, t: Tracker, appid: u32)
    requires Delimited(body)
    ensures StaysInside(body, t) && Patched(body, t, appid) == FieldwisePatched(body, t, appid)
  {
    hide Fields, WellFormed, Delimited, TurnedAll, StaysInside, RewriteAll, Flatten, StatusFlags, StatusField;
    TurnedIsFieldwise(body, t, appid);
    var gs := RewriteAll(Fields(body, true), t, appid);
    if gs.Some? {
      StatusBytes(gs.value, t, appid, StatusFlags(body));
    }
  }

  // ---- the announcing fields ---------------------------------------------------------

  lemma PresenceIsValid(t: Tracker, appid: u32)
    requires |Flatten(Presence(t, appid))| < TWO_63
    ensures ValidFields(Presence(t, appid), true)
    ensures forall i :: 0 <= i < |Presence(t, appid)| ==> Presence(t, appid)[i].Number() in REPLACED
  {
    hide VarintField, Fixed64Field, Flatten, ParseField;
    var kvs := t.PairsOf(appid);
    VarintFieldIsValid(FRIEND_GAME_PLAYED_APP_ID, appid, true);
    Fixed64FieldIsValid(FRIEND_GAME_ID, appid, true);
    var fs := Presence(t, appid);
    forall i | 0 <= i < |fs|
      ensures ValidField(fs[i], true) && fs[i].Number() in REPLACED
    {
      PairFieldsAt(kvs, if i < 2 then 0 else i - 2);
      if i >= 2 {
        FieldInFlatten(fs, i);
        PairIsValid(kvs[i - 2]);
      }
    }
  }

  lemma PairIsValid(kv: KV)
    requires |PairField(kv).raw| < TWO_63
    ensures ValidField(PairField(kv), true) && PairField(kv).Number() == FRIEND_RICH_PRESENCE
  {
    hide Encode, ParseField;
    var pair := BytesField(1, kv.key).raw + BytesField(2, kv.value).raw;
    assert |PairField(kv).raw| >= |pair|;
    BytesFieldIsValid(FRIEND_RICH_PRESENCE, pair, true);
  }

  /** Fields whose numbers are all removed leave nothing behind. */
  lemma {:induction false} RemovedEntirely(fs: seq<Field>, remove: set<u32>)
    requires forall i :: 0 <= i < |fs| ==> fs[i].Number() in remove
    ensures Without(fs, remove) == []
    ensures forall number: u32 :: number !in remove ==> LastScalar(fs, number) == None
  {
    hide ScalarOf;
    if fs != [] {
      RemovedEntirely(fs[1..], remove);
      forall number: u32 | number !in remove
        ensures LastScalar(fs, number) == None
      {
        LastScalarAppend([fs[0]], fs[1..], number);
        LastScalarSnoc([], fs[0], number);
        assert [] + [fs[0]] == [fs[0]];
        assert [fs[0]] + fs[1..] == fs;
      }
    }
  }

  // ---- one entry -------------------------------------------------------------------------

  /** The fields of a rewritten entry: the kept ones, then the announcement. */
  lemma EntryFields(content: seq<byte>, t: Tracker, appid: u32)
    requires WellFormed(content, true) && |Flatten(Presence(t, appid))| < TWO_63
    ensures var entry := Pruned(content, REPLACED).value + Flatten(Presence(t, appid));
            && WellFormed(entry, true)
            && Fields(entry, true) == Without(Fields(content, true), REPLACED) + Presence(t, appid)
  {
    hide Fields, WellFormed, Presence, Without;
    PrunedFields(content, REPLACED);
    PresenceIsValid(t, appid);
    FlattenIsWellFormed(Presence(t, appid), true);
    Concatenation(Pruned(content, REPLACED).value, Flatten(Presence(t, appid)), true);
  }

  /** Rewriting keeps every scalar that is not replaced, so the entry still names the local user. */
  lemma EntryScalars(content: seq<byte>, t: Tracker, appid: u32, number: u32)
    requires WellFormed(content, true) && |Flatten(Presence(t, appid))| < TWO_63 && number !in REPLACED
    ensures GetScalar(Pruned(content, REPLACED).value + Flatten(Presence(t, appid)), number) ==
            GetScalar(content, number)
  {
    hide Fields, WellFormed, Presence, Without, LastScalar;
    EntryFields(content, t, appid);
    PresenceIsValid(t, appid);
    RemovedEntirely(Presence(t, appid), REPLACED);
    LastScalarAppend(Without(Fields(content, true), REPLACED), Presence(t, appid), number);
    LastScalarWithout(Fields(content, true), REPLACED, number);
  }

  /** Pruning a rewritten entry gives what pruning the original gave. */
  lemma EntryPrunesBack(content: seq<byte>, t: Tracker, appid: u32)
    requires WellFormed(content, true) && |Flatten(Presence(t, appid))| < TWO_63
    ensures Pruned(Pruned(content, REPLACED).value + Flatten(Presence(t, appid)), REPLACED) ==
            Pruned(content, REPLACED)
  {
    hide Fields, WellFormed, Presence, Without;
    EntryFields(content, t, appid);
    PresenceIsValid(t, appid);
    RemovedEntirely(Presence(t, appid), REPLACED);
    var kept := Without(Fields(content, true), REPLACED);
    WithoutAppend(kept, Presence(t, appid), REPLACED);
    WithoutTwice(Fields(content, true), REPLACED, REPLACED);
    assert REPLACED + REPLACED == REPLACED;
    assert kept + [] == kept;
  }

  // ---- one field ---------------------------------------------------------------------------

  /** The entry a rewritten friends field holds. */
  lemma RewrittenEntry(f: Field, t: Tracker, appid: u32)
    requires IsSelf(f, t) && |f.raw| < TWO_32 && WellFormed(Content(f), true)
    requires |Flatten(Presence(t, appid))| < TWO_63
    ensures var entry := Pruned(Content(f), REPLACED).value + Flatten(Presence(t, appid));
            var g := BytesField(FIELD_FRIENDS, entry);
            && Rewrite(f, t, appid) == Some([g])
            && ValidField(g, true) && Content(g) == entry && IsSelf(g, t)
            && g.Number() == FIELD_FRIENDS && g.Wire() == WIRE_LENGTH_DELIM
  {
    hide Fields, WellFormed, ParseField, Decode, BytesField, GetScalar, Presence, Flatten;
    PrunedIsShorter(Content(f), REPLACED);
    var kept := SomePruned(Content(f));
    var entry := kept + Flatten(Presence(t, appid));
    BytesFieldIsValid(FIELD_FRIENDS, entry, true);
    ValidFieldShape(BytesField(FIELD_FRIENDS, entry), true);
    EntryScalars(Content(f), t, appid, FRIEND_ID);
  }

  lemma SomePruned(s: seq<byte>) returns (kept: seq<byte>)
    requires WellFormed(s, true)
    ensures Pruned(s, REPLACED) == Some(kept)
  {
    kept := Pruned(s, REPLACED).value;
  }

  /** Only a malformed entry of the local user fails to be rewritten, whatever the app. */
  lemma RewriteFailsAlike(f: Field, t: Tracker, a: u32, b: u32)
    ensures Rewrite(f, t, a) == None <==> Rewrite(f, t, b) == None
    ensures Rewrite(f, t, a) == None <==> IsSelf(f, t) && !WellFormed(Content(f), true)
  {
    hide Fields, WellFormed, IsSelf, BytesField, Presence;
    if f.Number() == FIELD_STATUS_FLAGS {
      StatusIsNotSelf(f, t);
    }
  }

  lemma StatusIsNotSelf(f: Field, t: Tracker)
    requires f.Number() == FIELD_STATUS_FLAGS
    ensures !IsSelf(f, t)
  {
  }

  /** Rewriting for one app and then another is rewriting for the other. */
  lemma RewriteTwice(f: Field, t: Tracker, a: u32, b: u32)
    requires ValidField(f, true) && |f.raw| < TWO_32 && Rewrite(f, t, a).Some?
    requires |Flatten(Presence(t, a))| < TWO_63 && |Flatten(Presence(t, b))| < TWO_63
    ensures var gs := Rewrite(f, t, a).value;
            && ValidFields(gs, true)
            && RewriteAll(gs, t, b) == Rewrite(f, t, b)
            && (forall i :: 0 <= i < |gs| ==> gs[i].Number() != FIELD_STATUS_FLAGS)
  {
    hide Fields, WellFormed, ParseField, Decode, BytesField, GetScalar, Presence, Flatten, Pruned;
    RewriteFailsAlike(f, t, a, b);
    if f.Number() == FIELD_STATUS_FLAGS {
      assert RewriteAll([], t, b) == Some([]);
    } else if IsSelf(f, t) {
      RewrittenEntry(f, t, a);
      RewrittenEntry(f, t, b);
      var g := Rewrite(f, t, a).value[0];
      EntryPrunesBack(Content(f), t, a);
      RewriteOne(g, t, b);
    } else {
      RewriteOne(f, t, b);
    }
  }

  lemma RewriteOne(f: Field, t: Tracker, appid: u32)
    ensures RewriteAll([f], t, appid) == Rewrite(f, t, appid)
  {
    hide Rewrite;
    RewriteSnoc([], f, t, appid);
    assert [] + [f] == [f];
    if Rewrite(f, t, appid).Some? {
      assert [] + Rewrite(f, t, appid).value == Rewrite(f, t, appid).value;
    }
  }

  // ---- all fields -----------------------------------------------------------------------------

  lemma {:induction false} RewriteAppend(a: seq<Field>, b: seq<Field>, t: Tracker, appid: u32)
    ensures RewriteAll(a + b, t, appid) ==
            (var x, y := RewriteAll(a, t, appid), RewriteAll(b, t, appid);
             if x == None || y == None then None else Some(x.value + y.value))
  {
    hide Rewrite;
    if b == [] {
      assert a + b == a;
      if RewriteAll(a, t, appid).Some? {
        assert RewriteAll(a, t, appid).value + [] == RewriteAll(a, t, appid).value;
      }
    } else {
      var front, last := b[..|b| - 1], b[|b| - 1];
      RewriteAppend(a, front, t, appid);
      assert a + b == a + front + [last];
      RewriteSnoc(a + front, last, t, appid);
      var x, y, z := RewriteAll(a, t, appid), RewriteAll(front, t, appid), Rewrite(last, t, appid);
      if x.Some? && y.Some? && z.Some? {
        assert x.value + y.value + z.value == x.value + (y.value + z.value);
      }
    }
  }

  lemma RewriteNone(t: Tracker, appid: u32)
    ensures RewriteAll([], t, appid) == Some([])
  {
  }

  lemma {:induction false} RewriteAllTwice(fs: seq<Field>, t: Tracker, a: u32, b: u32)
    requires ValidFields(fs, true) && |Flatten(fs)| < TWO_32
    requires |Flatten(Presence(t, a))| < TWO_63 && |Flatten(Presence(t, b))| < TWO_63
    requires RewriteAll(fs, t, a).Some?
    ensures var gs := RewriteAll(fs, t, a).value;
            && ValidFields(gs, true)
            && RewriteAll(gs, t, b) == RewriteAll(fs, t, b)
            && (forall i :: 0 <= i < |gs| ==> gs[i].Number() != FIELD_STATUS_FLAGS)
  {
    hide Rewrite, RewriteAll, ParseField, Presence, Flatten;
    if fs == [] {
      RewriteNone(t, a);
      RewriteNone(t, b);
    } else {
      var front, last := fs[..|fs| - 1], fs[|fs| - 1];
      assert fs == front + [last];
      RewriteSnoc(front, last, t, a);
      RewriteSnoc(front, last, t, b);
      FlattenAppend(front, [last]);
      FlattenSmall(last);
      RewriteAllTwice(front, t, a, b);
      RewriteTwice(last, t, a, b);
      RewriteAppend(RewriteAll(front, t, a).value, Rewrite(last, t, a).value, t, b);
    }
  }

  // ---- the status flags of a patched message ----------------------------------------------------

  lemma {:induction false} StatusBehind(fs: seq<Field>, rest: seq<byte>)
    requires ValidFields(fs, true)
    requires forall i :: 0 <= i < |fs| ==> fs[i].Number() != FIELD_STATUS_FLAGS
    ensures StatusFlags(Flatten(fs) + rest) == StatusFlags(rest)
  {
    hide ParseField, Decode;
    if fs == [] {
      assert Flatten(fs) + rest == rest;
    } else {
      StatusBehind(fs[1..], rest);
      var ahead := Flatten(fs[1..]) + rest;
      var all := fs[0].raw + ahead;
      assert Flatten(fs) + rest == all;
      assert ValidField(fs[0], true);
      FieldIsLocal(fs[0].raw, all, true);
      assert all[|fs[0].raw|..] == ahead;
    }
  }

  lemma StatusOfField(v: u64)
    ensures StatusFlags(VarintField(FIELD_STATUS_FLAGS, v).raw) == Some(v)
    ensures StatusFlags([]) == None
  {
    hide ParseField, Decode, ScalarOf, Encode;
    EmptyHasNoField(true);
    VarintFieldIsValid(FIELD_STATUS_FLAGS, v, true);
    var f := VarintField(FIELD_STATUS_FLAGS, v);
    assert f.raw[|f.raw|..] == [];
    RoundTrip(v, []);
    assert f.raw[f.head..] == Encode(v) && Encode(v) + [] == Encode(v);
  }

  /** The fields of a patched message. */
  lemma PatchedFields(body: seq<byte>, t: Tracker, appid: u32)
    requires Sized(body, t, appid) && Delimited(body) && Patched(body, t, appid).Some?
    ensures var fs := RewriteAll(Fields(body, true), t, appid);
            var status := StatusField(t, appid, StatusFlags(body));
            var out := Patched(body, t, appid).value;
            && fs.Some?
            && WellFormed(out, true)
            && Fields(out, true) == fs.value + status
            && StatusFlags(out) == if status == [] then None
                                   else Some(NewFlags(t, appid, FlagsOrZero(StatusFlags(body))))
  {
    hide Fields, WellFormed, RewriteAll, Presence, StatusFlags, NewFlags, VarintField, Flatten, Delimited, Patched,
         StaysInside;
    PatchedIsFieldwise(body, t, appid);
    var fs := RewriteAll(Fields(body, true), t, appid).value;
    var v := NewFlags(t, appid, FlagsOrZero(StatusFlags(body)));
    FieldsAreValid(body, true);
    FlattenOfFields(body, true);
    RewriteAllTwice(Fields(body, true), t, appid, appid);
    VarintFieldIsValid(FIELD_STATUS_FLAGS, v, true);
    FlattenIsWellFormed(fs + StatusField(t, appid, StatusFlags(body)), true);
    StatusBytes(fs, t, appid, StatusFlags(body));
    StatusOfField(v);
    StatusBehind(fs, VarintField(FIELD_STATUS_FLAGS, v).raw);
    StatusBehind(fs, []);
    assert Flatten(fs) + [] == Flatten(fs);
  }

  // ---- patching twice -----------------------------------------------------------------------------

  /**
    * When the last patch decides: unless the first one takes the flag down from a value that does not fit
    * in 32 bits and the second one raises it, or the message had no flags and the first patch adds some
    * that the second one then keeps at zero.
    */
  predicate LastPatchDecides(flags: Option<u64>, t: Tracker, a: u32, b: u32) {
    match flags
    case Some(v) => !(Raises(t, b) && !Raises(t, a) && v >= TWO_32)
    case None => !(Raises(t, a) && !Raises(t, b))
  }

  lemma StatusTwice(flags: Option<u64>, t: Tracker, a: u32, b: u32)
    ensures var mid := if StatusField(t, a, flags) == [] then None
                       else Some(NewFlags(t, a, FlagsOrZero(flags)));
            StatusField(t, b, mid) == StatusField(t, b, flags) <==> LastPatchDecides(flags, t, a, b)
  {
    hide VarintField;
    var v := FlagsOrZero(flags);
    var va := NewFlags(t, a, v);
    DistinctFields(NewFlags(t, b, va), NewFlags(t, b, v));
    FlagsOfZero(t, a);
    FlagsOfZero(t, b);
    hide NewFlags;
    FlagsCompose(t, a, b, v);
  }

  lemma FlagsOfZero(t: Tracker, appid: u32)
    ensures NewFlags(t, appid, 0) == if Raises(t, appid) then RICH_PRESENCE_FLAG else 0
  {
  }

  lemma DistinctFields(v: u64, w: u64)
    ensures VarintField(FIELD_STATUS_FLAGS, v) == VarintField(FIELD_STATUS_FLAGS, w) <==> v == w
  {
    hide VarintField;
    VarintFieldIsValid(FIELD_STATUS_FLAGS, v, true);
    VarintFieldIsValid(FIELD_STATUS_FLAGS, w, true);
  }

  /** A patched message is again one on which the patcher stays inside and works field by field. */
  lemma PatchedStaysDelimited(body: seq<byte>, t: Tracker, appid: u32)
    requires Sized(body, t, appid) && |body| + |Flatten(Presence(t, appid))| < TWO_32
    requires Delimited(body) && Patched(body, t, appid).Some?
    ensures Delimited(Patched(body, t, appid).value) && StaysInside(Patched(body, t, appid).value, t)
  {
    hide Fields, WellFormed, RewriteAll, Presence, StatusFlags, Flatten, FriendsDelimited, Patched, StaysInside,
         NewFlags, VarintField;
    FieldsAreValid(body, true);
    FlattenOfFields(body, true);
    PatchedFields(body, t, appid);
    RewriteStaysDelimited(Fields(body, true), t, appid);
    var v := NewFlags(t, appid, FlagsOrZero(StatusFlags(body)));
    VarintFieldIsValid(FIELD_STATUS_FLAGS, v, true);
    var gs := RewriteAll(Fields(body, true), t, appid).value;
    StatusIsDelimited(VarintField(FIELD_STATUS_FLAGS, v));
    DelimitedSnoc(gs, VarintField(FIELD_STATUS_FLAGS, v));
    assert gs + [] == gs;
    PatchedIsFieldwise(Patched(body, t, appid).value, t, appid);
  }

  lemma StatusIsDelimited(f: Field)
    requires f.Number() == FIELD_STATUS_FLAGS
    ensures IsDelimited(f)
  {
  }

  lemma DelimitedSnoc(fs: seq<Field>, f: Field)
    ensures FriendsDelimited(fs + [f]) <==> FriendsDelimited(fs) && IsDelimited(f)
  {
    hide IsDelimited;
    var all := fs + [f];
    if FriendsDelimited(all) {
      assert IsDelimited(all[|fs|]);
      forall i | 0 <= i < |fs|
        ensures IsDelimited(fs[i])
      {
        assert IsDelimited(all[i]);
      }
    }
  }

  lemma {:induction false} RewriteStaysDelimited(fs: seq<Field>, t: Tracker, appid: u32)
    requires ValidFields(fs, true) && FriendsDelimited(fs) && RewriteAll(fs, t, appid).Some?
    requires |Flatten(fs)| + |Flatten(Presence(t, appid))| < TWO_32
    ensures FriendsDelimited(RewriteAll(fs, t, appid).value)
  {
    hide Rewrite, RewriteAll, ParseField, Presence, Flatten, IsDelimited;
    if fs == [] {
      RewriteNone(t, appid);
    } else {
      hide FriendsDelimited;
      var front, last := fs[..|fs| - 1], fs[|fs| - 1];
      assert fs == front + [last];
      DelimitedSnoc(front, last);
      RewriteSnoc(front, last, t, appid);
      FlattenAppend(front, [last]);
      FlattenSmall(last);
      RewriteStaysDelimited(front, t, appid);
      RewrittenIsDelimited(last, t, appid);
      var gs, own := RewriteAll(front, t, appid).value, Rewrite(last, t, appid).value;
      if own == [] {
        assert gs + own == gs;
      } else {
        assert own == [own[0]];
        DelimitedSnoc(gs, own[0]);
      }
    }
  }

  lemma RewrittenIsDelimited(f: Field, t: Tracker, appid: u32)
    requires ValidField(f, true) && IsDelimited(f) && Rewrite(f, t, appid).Some?
    requires |f.raw| + |Flatten(Presence(t, appid))| < TWO_32
    ensures var gs := Rewrite(f, t, appid).value; |gs| <= 1 && (gs != [] ==> IsDelimited(gs[0]))
  {
    hide Fields, WellFormed, ParseField, Decode, BytesField, GetScalar, Presence, Flatten, Pruned;
    RewriteFailsAlike(f, t, appid, appid);
    if f.Number() != FIELD_STATUS_FLAGS && IsSelf(f, t) {
      RewrittenEntry(f, t, appid);
      EntryIsShort(Content(f), t, appid);
      ValidFieldShape(Rewrite(f, t, appid).value[0], true);
    }
  }

  lemma EntryIsShort(content: seq<byte>, t: Tracker, appid: u32)
    requires WellFormed(content, true)
    ensures |Pruned(content, REPLACED).value + Flatten(Presence(t, appid))| <=
            |content| + |Flatten(Presence(t, appid))|
  {
    PrunedIsShorter(content, REPLACED);
  }

  /** Patching for one app and then another equals patching for the other, exactly under that condition. */
  lemma PatchTwice(body: seq<byte>, t: Tracker, a: u32, b: u32)
    requires Sized(body, t, a) && Sized(body, t, b) && |body| + |Flatten(Presence(t, a))| < TWO_32
    requires Delimited(body) && Patched(body, t, a).Some?
    ensures StaysInside(body, t) && StaysInside(Patched(body, t, a).value, t)
    ensures Patched(body, t, b).Some? && Patched(Patched(body, t, a).value, t, b).Some?
    ensures Patched(Patched(body, t, a).value, t, b) == Patched(body, t, b) <==>
            LastPatchDecides(StatusFlags(body), t, a, b)
  {
    hide Fields, WellFormed, RewriteAll, Presence, StatusFlags, Flatten, StatusField, NewFlags, LastPatchDecides,
         Delimited, Patched, StaysInside;
    var fs := Fields(body, true);
    FieldsAreValid(body, true);
    FlattenOfFields(body, true);
    PatchedFields(body, t, a);
    PatchedStaysDelimited(body, t, a);
    PatchedIsFieldwise(body, t, a);
    PatchedIsFieldwise(body, t, b);
    PatchedIsFieldwise(Patched(body, t, a).value, t, b);
    RewriteAllTwice(fs, t, a, b);
    RewriteAllTwice(fs, t, a, a);
    FailAlike(fs, t, a, b);
    RewriteAllTwice(fs, t, b, b);
    var flags := StatusFlags(body);
    var mid := StatusFlags(Patched(body, t, a).value);
    DropStatus(RewriteAll(fs, t, a).value, t, a, b, flags);
    StatusTwice(flags, t, a, b);
    var gs := RewriteAll(fs, t, b).value;
    SameBytesSameStatus(gs, t, b, mid, flags);
  }

  lemma {:induction false} FailAlike(fs: seq<Field>, t: Tracker, a: u32, b: u32)
    ensures RewriteAll(fs, t, a) == None <==> RewriteAll(fs, t, b) == None
  {
    hide Rewrite;
    if fs != [] {
      FailAlike(fs[..|fs| - 1], t, a, b);
      RewriteFailsAlike(fs[|fs| - 1], t, a, b);
    }
  }

  /** The appended status field is dropped again by the next patch. */
  lemma DropStatus(gs: seq<Field>, t: Tracker, a: u32, b: u32, flags: Option<u64>)
    ensures RewriteAll(gs + StatusField(t, a, flags), t, b) == RewriteAll(gs, t, b)
  {
    hide RewriteAll, NewFlags, VarintField;
    var status := StatusField(t, a, flags);
    var v := NewFlags(t, a, FlagsOrZero(flags));
    if status == [] {
      assert gs + status == gs;
    } else {
      VarintFieldIsValid(FIELD_STATUS_FLAGS, v, true);
      RewriteOne(VarintField(FIELD_STATUS_FLAGS, v), t, b);
      RewriteAppend(gs, status, t, b);
      if RewriteAll(gs, t, b).Some? {
        assert RewriteAll(gs, t, b).value + [] == RewriteAll(gs, t, b).value;
      }
    }
  }

  lemma SameBytesSameStatus(gs: seq<Field>, t: Tracker, appid: u32, x: Option<u64>, y: Option<u64>)
    requires ValidFields(gs, true)
    ensures Flatten(gs + StatusField(t, appid, x)) == Flatten(gs + StatusField(t, appid, y)) <==>
            StatusField(t, appid, x) == StatusField(t, appid, y)
  {
    hide NewFlags, VarintField, Flatten;
    VarintFieldIsValid(FIELD_STATUS_FLAGS, NewFlags(t, appid, FlagsOrZero(x)), true);
    VarintFieldIsValid(FIELD_STATUS_FLAGS, NewFlags(t, appid, FlagsOrZero(y)), true);
    var xs, ys := gs + StatusField(t, appid, x), gs + StatusField(t, appid, y);
    FlattenIsWellFormed(xs, true);
    FlattenIsWellFormed(ys, true);
    hide StatusField, ValidFields;
    if xs == ys {
      SameTail(gs, StatusField(t, appid, x), StatusField(t, appid, y));
    }
  }

  lemma SameTail(gs: seq<Field>, xs: seq<Field>, ys: seq<Field>)
    requires gs + xs == gs + ys
    ensures xs == ys
  {
    assert xs == (gs + xs)[|gs|..] && ys == (gs + ys)[|gs|..];
  }

  /** Patching again for the same app changes nothing, byte for byte. */
  lemma PatchIsIdempotent(body: seq<byte>, t: Tracker, appid: u32)
    requires Sized(body, t, appid) && |body| + |Flatten(Presence(t, appid))| < TWO_32
    requires Delimited(body) && Patched(body, t, appid).Some?
    ensures StaysInside(Patched(body, t, appid).value, t)
    ensures Patched(Patched(body, t, appid).value, t, appid) == Patched(body, t, appid)
  {
    hide Patched, Raises, Delimited, StaysInside, Presence, Flatten, StatusFlags;
    PatchTwice(body, t, appid, appid);
  }

  // ---- when patching succeeds ----------------------------------------------------------------------

  /** An entry of the local user that is malformed inside. */
  predicate IsBrokenSelf(f: Field, t: Tracker) {
    IsSelf(f, t) && !WellFormed(Content(f), true)
  }

  predicate NoneBroken(fs: seq<Field>, t: Tracker) {
    forall i :: 0 <= i < |fs| ==> !IsBrokenSelf(fs[i], t)
  }

  /** Every entry of the local user, as the patcher reads it, is well-formed inside. */
  predicate EntriesIntact(s: seq<byte>, t: Tracker)
    decreases |s|
  {
    match ParseField(s, true)
    case None => true
    case Some(f) =>
      && (f.Number() == FIELD_FRIENDS && EntrySpan(s, f.head).Some? && NamesSelf(EntrySpan(s, f.head).value, t) ==>
            WellFormed(EntrySpan(s, f.head).value, true))
      && EntriesIntact(s[|f.raw|..], t)
  }

  /** Patching a body it stays inside of fails only on a malformed message or a malformed own entry. */
  lemma {:induction false} PatchSucceedsIff(body: seq<byte>, t: Tracker, appid: u32)
    requires StaysInside(body, t)
    ensures Patched(body, t, appid).Some? <==> WellFormed(body, true) && EntriesIntact(body, t)
  {
    hide Flatten, StatusField, StatusFlags, TurnedAll, WellFormed, EntriesIntact, StaysInside;
    TurnedSucceedsIff(body, t, appid);
  }

  lemma {:induction false} TurnedSucceedsIff(s: seq<byte>, t: Tracker, appid: u32)
    requires StaysInside(s, t)
    ensures TurnedAll(s, t, appid).Some? <==> WellFormed(s, true) && EntriesIntact(s, t)
    decreases |s|
  {
    hide ParseField, EntrySpan, NamesSelf, Turned;
    if s == [] {
      EmptyHasNoField(true);
    } else {
      match ParseField(s, true)
      case None =>
      case Some(f) =>
        TurnedFailsIff(s, f, t, appid);
        TurnedFailsIff(s, f, t, 0);
        if Turned(s, f, t, appid).Some? {
          TurnedSucceedsIff(s[|f.raw|..], t, appid);
        }
    }
  }

  lemma TurnedFailsIff(s: seq<byte>, f: Field, t: Tracker, appid: u32)
    requires f.head <= |s| && (f.Number() == FIELD_FRIENDS ==> EntrySpan(s, f.head).Some?)
    ensures Turned(s, f, t, appid) == None <==>
            f.Number() == FIELD_FRIENDS && NamesSelf(EntrySpan(s, f.head).value, t)
            && !WellFormed(EntrySpan(s, f.head).value, true)
  {
    hide Fields, WellFormed, EntrySpan, NamesSelf, BytesField, Presence, Flatten;
  }

  /** On delimited messages these are the contents of the friends fields. */
  lemma DelimitedIntactIff(body: seq<byte>, t: Tracker)
    requires Delimited(body) && WellFormed(body, true)
    ensures EntriesIntact(body, t) <==> NoneBroken(Fields(body, true), t)
  {
    hide Fields, WellFormed, RewriteAll, NoneBroken, Flatten, StatusField, StatusFlags, Delimited, StaysInside,
         EntriesIntact, Patched;
    PatchedIsFieldwise(body, t, 0);
    PatchSucceedsIff(body, t, 0);
    RewriteSucceedsIff(Fields(body, true), t, 0);
  }

  lemma BrokenSelfFails(f: Field, t: Tracker, appid: u32)
    ensures Rewrite(f, t, appid) == None <==> IsBrokenSelf(f, t)
  {
    hide Rewrite, WellFormed, IsSelf;
    RewriteFailsAlike(f, t, appid, appid);
  }

  lemma NoneBrokenSnoc(fs: seq<Field>, f: Field, t: Tracker)
    ensures NoneBroken(fs + [f], t) <==> NoneBroken(fs, t) && !IsBrokenSelf(f, t)
  {
    hide IsBrokenSelf;
    var all := fs + [f];
    if NoneBroken(all, t) {
      assert !IsBrokenSelf(all[|fs|], t);
      forall i | 0 <= i < |fs|
        ensures !IsBrokenSelf(fs[i], t)
      {
        assert !IsBrokenSelf(all[i], t);
      }
    }
  }

  lemma {:induction false} RewriteSucceedsIff(fs: seq<Field>, t: Tracker, appid: u32)
    ensures RewriteAll(fs, t, appid).Some? <==> NoneBroken(fs, t)
  {
    hide IsBrokenSelf, Rewrite, RewriteAll;
    if fs == [] {
      RewriteNone(t, appid);
    } else {
      hide NoneBroken;
      var front, last := fs[..|fs| - 1], fs[|fs| - 1];
      assert fs == front + [last];
      RewriteSucceedsIff(front, t, appid);
      RewriteSnoc(front, last, t, appid);
      BrokenSelfFails(last, t, appid);
      NoneBrokenSnoc(front, last, t);
    }
  }

  // ---- what the rewritten entry shows --------------------------------------------------------------------

  /** The entry announces exactly the app, or nothing when cleared, and keeps its other scalars. */
  lemma EntryShowsApp(content: seq<byte>, t: Tracker, appid: u32, number: u32)
    requires WellFormed(content, true) && |Flatten(Presence(t, appid))| < TWO_63
    ensures var entry := Pruned(content, REPLACED).value + Flatten(Presence(t, appid));
            GetScalar(entry, number) ==
            if number !in REPLACED then GetScalar(content, number)
            else if appid != 0 && number == FRIEND_GAME_PLAYED_APP_ID then Some(Scalar(appid, WIRE_VARINT))
            else if appid != 0 && number == FRIEND_GAME_ID then Some(Scalar(appid, WIRE_FIXED64))
            else None
  {
    hide Fields, WellFormed, Without, LastScalar, Presence, Flatten;
    if number !in REPLACED {
      EntryScalars(content, t, appid, number);
    } else {
      EntryFields(content, t, appid);
      LastScalarWithout(Fields(content, true), REPLACED, number);
      LastScalarAppend(Without(Fields(content, true), REPLACED), Presence(t, appid), number);
      PresenceScalars(t, appid, number);
    }
  }

  lemma PresenceScalars(t: Tracker, appid: u32, number: u32)
    requires |Flatten(Presence(t, appid))| < TWO_63
    ensures LastScalar(Presence(t, appid), number) ==
            if appid != 0 && number == FRIEND_GAME_PLAYED_APP_ID then Some(Scalar(appid, WIRE_VARINT))
            else if appid != 0 && number == FRIEND_GAME_ID then Some(Scalar(appid, WIRE_FIXED64))
            else None
  {
    hide VarintField, Fixed64Field, ScalarOf, ParseField, Flatten, PairField;
    if appid != 0 {
      var played, game := VarintField(FRIEND_GAME_PLAYED_APP_ID, appid), Fixed64Field(FRIEND_GAME_ID, appid);
      VarintFieldIsValid(FRIEND_GAME_PLAYED_APP_ID, appid, true);
      Fixed64FieldIsValid(FRIEND_GAME_ID, appid, true);
      ValidFieldShape(played, true);
      ValidFieldShape(game, true);
      var pairs := PairFields(t.PairsOf(appid));
      PresenceIsValid(t, appid);
      forall i | 0 <= i < |pairs|
        ensures !CarriesScalar(pairs[i], number)
      {
        PairFieldsAt(t.PairsOf(appid), i);
        assert Presence(t, appid)[2 + i] == pairs[i];
        FieldInFlatten(Presence(t, appid), 2 + i);
        PairCarriesNoScalar(t.PairsOf(appid)[i]);
      }
      NoScalarAmong(pairs, number);
      LastScalarAppend([played, game], pairs, number);
      LastScalarSnoc([played], game, number);
      LastScalarSnoc([], played, number);
      assert [played, game] == [played] + [game] && [] + [played] == [played];
    }
  }

  lemma PairCarriesNoScalar(kv: KV)
    requires |PairField(kv).raw| < TWO_63
    ensures ScalarOf(PairField(kv)) == None
  {
    hide Encode, ParseField, Decode;
    var pair := BytesField(1, kv.key).raw + BytesField(2, kv.value).raw;
    assert |PairField(kv).raw| >= |pair|;
    BytesFieldIsValid(FRIEND_RICH_PRESENCE, pair, true);
  }

  lemma {:induction false} NoScalarAmong(fs: seq<Field>, number: u32)
    requires forall i :: 0 <= i < |fs| ==> !CarriesScalar(fs[i], number)
    ensures LastScalar(fs, number) == None
  {
    hide ScalarOf;
    if fs != [] {
      NoScalarAmong(fs[..|fs| - 1], number);
    }
  }
}
