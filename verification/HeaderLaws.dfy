/** What the header parser finds, said of the header's fields alone. */
module HeaderLaws {
  import opened Words
  import opened Varints
  import opened Messages
  import opened ProtoFields
  import opened Frames

  // ---- well-formed headers -------------------------------------------------------------------

  /** Fields that can hold a job id: a varint or eight bytes. */
  function JobIds(number: u32): Field -> bool {
    (f: Field) => f.Number() == number && f.Wire() <= 1
  }

  function Texts(number: u32): Field -> bool {
    (f: Field) => f.Number() == number && f.Wire() == 2
  }

  /** The number a field of wire type 0 or 1 holds; zero without a field. */
  function NumberIn(f: Option<Field>): nat {
    match f
    case Some(g) =>
      if g.head > |g.raw| then 0
      else if g.Wire() == 0 then Decode(g.Payload()).value
      else FromBytes(g.Payload())
    case None => 0
  }

  /** The content of a length-delimited field; empty without a field. */
  function TextIn(f: Option<Field>): seq<byte> {
    match f
    case Some(g) => if g.head > |g.raw| then [] else Content(g)
    case None => []
  }

  /** Each job id is the last number under its field number, and the job name the last text under its own. */
  lemma HeaderReads(header: seq<byte>)
    requires WellFormed(header, false)
    ensures var fs, h := Fields(header, false), ParseFrom(header, NO_HEADER);
            && h.source == NumberIn(Last(fs, JobIds(10)))
            && h.target == NumberIn(Last(fs, JobIds(11)))
            && h.name == TextIn(Last(fs, Texts(12)))
  {
    hide Fields, WellFormed, NumberIn, TextIn, JobIds, Texts, NoteAll;
    var fs := Fields(header, false);
    ParseOverFields(header, [], NO_HEADER);
    assert header + [] == header;
    ParseFromEnd(NoteAll(NO_HEADER, fs));
    NotedReads(fs);
  }

  lemma {:induction false} NotedReads(fs: seq<Field>)
    requires ValidFields(fs, false) && ShapedFields(fs)
    ensures var h := NoteAll(NO_HEADER, fs);
            && h.source == NumberIn(Last(fs, JobIds(10)))
            && h.target == NumberIn(Last(fs, JobIds(11)))
            && h.name == TextIn(Last(fs, Texts(12)))
  {
    hide NumberIn, TextIn, JobIds, Texts, ValidField, Note;
    if fs == [] {
      NothingIn();
    } else {
      var front, f := fs[..|fs| - 1], fs[|fs| - 1];
      assert fs == front + [f];
      assert ValidField(f, false);
      NotedReads(front);
      NoteSnoc(NO_HEADER, front, f);
      LastSnoc(front, f, JobIds(10));
      LastSnoc(front, f, JobIds(11));
      LastSnoc(front, f, Texts(12));
      NoteReads(NoteAll(NO_HEADER, front), f);
    }
  }

  lemma NothingIn()
    ensures NumberIn(None) == 0 && TextIn(None) == []
  {
  }

  lemma {:induction false} NoteSnoc(h: Header, fs: seq<Field>, f: Field)
    requires ShapedFields(fs + [f]) && ShapedFields(fs)
    ensures f.head <= |f.raw| && NoteAll(h, fs + [f]) == Note(NoteAll(h, fs), f)
    decreases |fs|
  {
    hide Note;
    var all := fs + [f];
    assert all[|fs|] == f;
    if fs == [] {
      assert all[1..] == [];
    } else {
      assert all[1..] == fs[1..] + [f];
      NoteSnoc(Note(h, fs[0]), fs[1..], f);
    }
  }

  lemma NoteReads(h: Header, f: Field)
    requires ValidField(f, false) && f.head <= |f.raw|
    ensures var g := Note(h, f);
            && g.source == (if JobIds(10)(f) then NumberIn(Some(f)) else h.source)
            && g.target == (if JobIds(11)(f) then NumberIn(Some(f)) else h.target)
            && g.name == (if Texts(12)(f) then TextIn(Some(f)) else h.name)
  {
    hide Decode, FromBytes;
    assert f.raw[0..] == f.raw;
    ScalarInPlace(f.raw, 0, false);
  }

  // ---- headers that are cut off ---------------------------------------------------------------

  /** What is left of the last field's payload makes a job id zero and, cut off inside its length, a job name empty. */
  function CutNote(h: Header, f: Field, left: seq<byte>): Header {
    if f.Number() == 10 && f.Wire() == 0 then h.(source := 0)
    else if f.Number() == 11 && f.Wire() == 0 then h.(target := 0)
    else if f.Number() == 12 && f.Wire() == 2 && !Decode(left).ok then h.(name := [])
    else h
  }

  /** A header cut off inside its last field reads as without that field but for what `CutNote` makes of it. */
  lemma CutHeaderReads(a: seq<byte>, f: Field, k: nat)
    requires WellFormed(a, false) && ValidField(f, false) && k < |f.raw|
    ensures var h := ParseFrom(a, NO_HEADER);
            ParseFrom(a + f.raw[..k], NO_HEADER) == if k < f.head then h else CutNote(h, f, f.raw[f.head..k])
  {
    hide WellFormed, ParseField, Fields, NoteAll, CutNote;
    var cut := f.raw[..k];
    ParseOverFields(a, cut, NO_HEADER);
    ParseOverFields(a, [], NO_HEADER);
    assert a + [] == a;
    ParseFromEnd(NoteAll(NO_HEADER, Fields(a, false)));
    ValidFieldShape(f, false);
    CutField(f, k, NoteAll(NO_HEADER, Fields(a, false)));
  }

  /** What the parser makes of a field that is cut off. */
  lemma CutField(f: Field, k: nat, h: Header)
    requires ValidField(f, false) && 0 < f.head <= |f.raw| && k < |f.raw|
    ensures ParseFrom(f.raw[..k], h) == if k < f.head then h else CutNote(h, f, f.raw[f.head..k])
  {
    hide ParseField, Decode, PayloadLength, CutNote;
    var cut := f.raw[..k];
    assert f.raw[0..] == f.raw;
    StepOverField(f.raw, 0, false);
    if k == 0 {
      ParseFromEnd(h);
    } else if k < f.head {
      CutVarint(f.raw, k);
      assert cut[k..] == [];
      CutTag(cut, h);
    } else {
      assert f.raw[..f.head] <= cut;
      DecodeIsLocal(f.raw, cut);
      assert cut[f.head..] == f.Payload()[..k - f.head] == f.raw[f.head..k];
      CutPayload(f, k - f.head, cut, h);
    }
  }

  lemma CutTag(cut: seq<byte>, h: Header)
    requires cut != [] && !Decode(cut).ok && Decode(cut).used == |cut|
    ensures ParseFrom(cut, h) == h
  {
    hide Decode, ParseFrom;
    EmptyDecodes();
    assert cut[|cut|..] == [];
    LastTurn(cut, h);
  }

  /** A turn that takes all bytes is the last one, and so is one that stops. */
  lemma LastTurn(s: seq<byte>, h: Header)
    requires s != []
    ensures Turn(s, h) == None ==> ParseFrom(s, h) == h
    ensures Turn(s, h).Some? && Turn(s, h).value.0 == |s| ==> ParseFrom(s, h) == Turn(s, h).value.1
  {
    hide Turn;
    assert s[|s|..] == [];
  }

  lemma CutPayload(f: Field, m: nat, cut: seq<byte>, h: Header)
    requires f.head <= |f.raw| && m < |f.Payload()| && f.head <= |cut| && cut[f.head..] == f.Payload()[..m]
    requires PayloadLength(f.Payload(), f.Wire()) == Some(|f.Payload()|) && cut != []
    requires Decode(cut).ok && Decode(cut).used == f.head && Decode(cut).value == f.tag
    ensures ParseFrom(cut, h) == CutNote(h, f, f.Payload()[..m])
  {
    hide Decode, ParseFrom, Load64;
    var p, q := f.Payload(), f.Payload()[..m];
    LastTurn(cut, h);
    EmptyDecodes();
    if f.Wire() == WIRE_VARINT {
      CutVarint(p, m);
    } else if f.Wire() == WIRE_LENGTH_DELIM {
      if m < Decode(p).used {
        CutVarint(p, m);
      } else {
        assert p[..Decode(p).used] <= q;
        DecodeIsLocal(p, q);
      }
    }
  }

  lemma EmptyDecodes()
    ensures Decode([]).used == 0 && !Decode([]).ok && Loose([]) == 0
  {
  }

  /** Cut inside, a varint is incomplete and takes all bytes that are left. */
  lemma CutVarint(s: seq<byte>, k: nat)
    requires Decode(s).ok && k < Decode(s).used
    ensures !Decode(s[..k]).ok && Decode(s[..k]).used == k
  {
    SpanShape(s, MAX_VARINT);
    SpanOfIncomplete(s[..k], k, MAX_VARINT);
  }

  // ---- headers that are malformed otherwise --------------------------------------------------------

  /** A field of an unknown wire type ends the header. */
  lemma UnknownTypeEnds(a: seq<byte>, b: seq<byte>)
    requires WellFormed(a, false) && Decode(b).ok && Decode(b).value % 8 !in {0, 1, 2, 5}
    ensures ParseFrom(a + b, NO_HEADER) == ParseFrom(a, NO_HEADER)
  {
    hide WellFormed, Fields, NoteAll, Decode;
    AfterWellFormed(a, b);
    EmptyDecodes();
    LastTurn(b, NoteAll(NO_HEADER, Fields(a, false)));
  }

  lemma AfterWellFormed(a: seq<byte>, b: seq<byte>)
    requires WellFormed(a, false)
    ensures ShapedFields(Fields(a, false))
    ensures ParseFrom(a + b, NO_HEADER) == ParseFrom(b, NoteAll(NO_HEADER, Fields(a, false)))
    ensures ParseFrom(a, NO_HEADER) == NoteAll(NO_HEADER, Fields(a, false))
  {
    hide WellFormed, Fields, NoteAll;
    ParseOverFields(a, b, NO_HEADER);
    ParseOverFields(a, [], NO_HEADER);
    assert a + [] == a;
    ParseFromEnd(NoteAll(NO_HEADER, Fields(a, false)));
  }

  /** A number that goes on for ten bytes and more reads as zero, and the header goes on behind the ten. */
  lemma OverlongReadsZero(a: seq<byte>, number: u32, v: seq<byte>, t: seq<byte>)
    requires WellFormed(a, false) && |v| == 10 && forall i :: 0 <= i < 10 ==> v[i] >= 128
    ensures var h := ParseFrom(a, NO_HEADER);
            ParseFrom(a + (Encode(8 * number) + (v + t)), NO_HEADER) ==
            ParseFrom(t, if number == 10 then h.(source := 0) else if number == 11 then h.(target := 0) else h)
  {
    hide WellFormed, Fields, NoteAll, Decode, Encode, ParseFrom;
    var b := Encode(8 * number) + (v + t);
    AfterWellFormed(a, b);
    RoundTrip(8 * number, v + t);
    assert b[|Encode(8 * number)|..] == v + t;
    assert b[|Encode(8 * number)| + 10..] == t;
    OverlongDecodes(v, t);
    OneTurn(b, NoteAll(NO_HEADER, Fields(a, false)));
  }

  lemma OneTurn(s: seq<byte>, h: Header)
    requires s != [] && Turn(s, h).Some?
    ensures Turn(s, h).value.0 <= |s| && ParseFrom(s, h) == ParseFrom(s[Turn(s, h).value.0..], Turn(s, h).value.1)
  {
    hide Turn;
  }

  lemma OverlongDecodes(v: seq<byte>, t: seq<byte>)
    requires |v| == 10 && forall i :: 0 <= i < 10 ==> v[i] >= 128
    ensures !Decode(v + t).ok && Decode(v + t).used == 10 && Loose(v + t) == 0
  {
    SpanOfIncomplete(v + t, 10, MAX_VARINT);
  }
}
