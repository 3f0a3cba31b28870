/** Packet frames: an eight-byte prefix, a header message, a body message. */
module Frames {
  import opened Words
  import opened Varints
  import opened Messages
  import opened ProtoFields

  const PROTO_FLAG: nat := 0x8000_0000
  const PREFIX: nat := 8
  const EMSG_SERVICE_METHOD_RESPONSE: u32 := 147
  const EMSG_GET_USER_STATS: u32 := 818
  const EMSG_USER_STATS_RESPONSE: u32 := 819
  const ERESULT_OK: u64 := 1
  const TAG_ERESULT_VARINT: byte := 0x68
  const TAG_MANIFEST_REQUEST_CODE: byte := 0x08
  const HDR_JOBID_SOURCE: u32 := 10
  const HDR_JOBID_TARGET: u32 := 11
  const HDR_JOB_NAME: u32 := 12
  const HDR_ERESULT: u32 := 13

  // ---- framing --------------------------------------------------------------------------

  /** `eMsg | flag`. */
  function WithFlag(eMsg: u32): u32 {
    if eMsg >= PROTO_FLAG then eMsg else eMsg + PROTO_FLAG
  }

  /** `eMsg & ~flag`. */
  function WithoutFlag(eMsg: u32): u32 {
    if eMsg >= PROTO_FLAG then eMsg - PROTO_FLAG else eMsg
  }

  /** The bytes of a frame whose first word is `word`. */
  function Frame(word: u32, header: seq<byte>, body: seq<byte>): seq<byte> {
    ToBytes(word, 4) + ToBytes(|header|, 4) + header + body
  }

  /** Where the parts of a received frame lie. */
  datatype Parts = Parts(eMsg: u32, headerLength: u32, bodyAt: nat, bodyLength: nat)

  /** The parts of a frame; the offset of the body is computed in 32 bits. */
  function Unpack(data: seq<byte>): Option<Parts> {
    if |data| < PREFIX then None
    else
      var word, length := Load32(data[..4]), Load32(data[4..8]);
      var off := (PREFIX + length) % TWO_32;
      if word < PROTO_FLAG || off > |data| then None
      else Some(Parts(WithoutFlag(word), length, off, |data| - off))
  }

  method UnpackRaw(data: seq<byte>) returns (parts: Option<Parts>)
    requires |data| < TWO_32
    ensures parts == Unpack(data)
  {
    if |data| < PREFIX {
      return None;
    }
    var word := Load32(data[..4]);
    if word < PROTO_FLAG {
      return None;
    }
    var cbHdr := Load32(data[4..8]);
    var off := (PREFIX + cbHdr) % TWO_32;
    if off > |data| {
      return None;
    }
    return Some(Parts(WithoutFlag(word), cbHdr, off, |data| - off));
  }

  /** Unpacking a frame gives back its message number, header and body. */
  lemma UnpackFrame(word: u32, header: seq<byte>, body: seq<byte>)
    requires word >= PROTO_FLAG && |header| + PREFIX < TWO_32
    ensures var f := Frame(word, header, body);
            && Unpack(f) == Some(Parts(WithoutFlag(word), |header|, PREFIX + |header|, |body|))
            && f[PREFIX..PREFIX + |header|] == header && f[PREFIX + |header|..] == body
  {
    hide ToBytes;
    var f := Frame(word, header, body);
    LoadStore32(word);
    LoadStore32(|header|);
    assert f[..4] == ToBytes(word, 4) && f[4..8] == ToBytes(|header|, 4);
    assert (PREFIX + |header|) % TWO_32 == PREFIX + |header|;
  }

  /** And whatever unpacks with its header inside is such a frame. */
  lemma FrameUnpacked(data: seq<byte>)
    requires Unpack(data).Some? && Unpack(data).value.headerLength + PREFIX < TWO_32
    ensures var p := Unpack(data).value;
            && p.bodyAt == PREFIX + p.headerLength <= |data|
            && data == Frame(WithFlag(p.eMsg), data[PREFIX..p.bodyAt], data[p.bodyAt..])
  {
    hide ToBytes;
    var p := Unpack(data).value;
    assert (PREFIX + p.headerLength) % TWO_32 == PREFIX + p.headerLength;
    assert data == data[..4] + data[4..8] + data[PREFIX..p.bodyAt] + data[p.bodyAt..];
  }

  /** Byte by byte: the flag is the top bit of the first word, and the offset of the body wraps at 2^32. */
  lemma UnpackIff(data: seq<byte>)
    ensures Unpack(data).Some? <==>
            && |data| >= 8 && data[3] >= 0x80
            && (8 + Digits(data[4], data[5], data[6], data[7])) % 0x1_0000_0000 <= |data|
    ensures Unpack(data).Some? ==>
              var p, length := Unpack(data).value, Digits(data[4], data[5], data[6], data[7]);
              && p.eMsg == Digits(data[0], data[1], data[2], data[3] - 0x80) && p.headerLength == length
              && p.bodyAt == (8 + length) % 0x1_0000_0000 && p.bodyAt + p.bodyLength == |data|
  {
    hide Load32;
    if |data| >= 8 {
      LittleEndian32(data[..4]);
      LittleEndian32(data[4..8]);
    }
  }

  // ---- the proto header ---------------------------------------------------------------------

  datatype Header = Header(source: u64, target: u64, name: seq<byte>)

  const NO_HEADER := Header(0, 0, [])

  /** The reader's own varint: a malformed one reads as zero, with its bytes consumed. */
  function Loose(s: seq<byte>): u64 {
    if Decode(s).ok then Decode(s).value else 0
  }

  function NoteNumber(h: Header, number: u32, value: u64): Header {
    if number == HDR_JOBID_SOURCE then h.(source := value)
    else if number == HDR_JOBID_TARGET then h.(target := value)
    else h
  }

  /** One turn of the header parser: how many bytes it consumes and what it notes; none when it stops. */
  function Turn(s: seq<byte>, h: Header): (r: Option<(nat, Header)>)
    ensures r.Some? && s != [] ==> 0 < r.value.0 <= |s|
  {
    var u := Decode(s).used;
    var rest := s[u..];
    var number := Loose(s) / 8 % TWO_32;
    var wire := Loose(s) % 8;
    if wire == WIRE_VARINT then
      Some((u + Decode(rest).used, NoteNumber(h, number, Loose(rest))))
    else if wire == WIRE_FIXED64 then
      if |rest| < 8 then None else Some((u + 8, NoteNumber(h, number, Load64(rest[..8]))))
    else if wire == WIRE_LENGTH_DELIM then
      var at := Decode(rest).used;
      var len := Loose(rest);
      if len > |rest| - at then None
      else Some((u + at + len, if number == HDR_JOB_NAME then h.(name := rest[at..at + len]) else h))
    else if wire == WIRE_FIXED32 then
      if |rest| < 4 then None else Some((u + 4, h))
    else None
  }

  /** What the header parser returns when it starts at `s` having found `h`. */
  function ParseFrom(s: seq<byte>, h: Header): Header
    decreases |s|
  {
    if s == [] then h
    else
      match Turn(s, h)
      case None => h
      case Some((n, next)) => ParseFrom(s[n..], next)
  }

  method ReadLoose(data: seq<byte>, start: nat) returns (ptr: nat, value: u64)
    requires start <= |data|
    ensures ptr == start + Decode(data[start..]).used && ptr <= |data| && value == Loose(data[start..])
  {
    var ok;
    ok, ptr, value := ReadVarint(data, start);
    if !ok {
      value := 0;
    }
  }

  /** A turn of the parser in terms of the buffer. */
  lemma TurnInPlace(data: seq<byte>, ptr: nat, h: Header)
    requires ptr < |data|
    ensures match Turn(data[ptr..], h)
            case None => ParseFrom(data[ptr..], h) == h
            case Some((n, next)) => ptr + n <= |data| && ParseFrom(data[ptr..], h) == ParseFrom(data[ptr + n..], next)
  {
    hide Turn;
    var s := data[ptr..];
    match Turn(s, h)
    case None =>
    case Some((n, next)) => assert s[n..] == data[ptr + n..];
  }

  /** The same with what the turn reads where it lies in the buffer. */
  lemma TurnInBuffer(data: seq<byte>, ptr: nat, h: Header)
    requires ptr < |data|
    ensures var u := Decode(data[ptr..]).used;
            var next := ptr + u;
            var number, wire := Loose(data[ptr..]) / 8 % TWO_32, Loose(data[ptr..]) % 8;
            var at, len := next + Decode(data[next..]).used, Loose(data[next..]);
            && next <= |data| && at <= |data|
            && Turn(data[ptr..], h) ==
               if wire == WIRE_VARINT then Some((at - ptr, NoteNumber(h, number, len)))
               else if wire == WIRE_FIXED64 then
                 if |data| - next < 8 then None
                 else Some((u + 8, NoteNumber(h, number, Load64(data[next..next + 8]))))
               else if wire == WIRE_LENGTH_DELIM then
                 if len > |data| - at then None
                 else Some((at + len - ptr, if number == HDR_JOB_NAME then h.(name := data[at..at + len]) else h))
               else if wire == WIRE_FIXED32 then
                 if |data| - next < 4 then None else Some((u + 4, h))
               else None
  {
    hide Decode, Loose, NoteNumber, Load64;
    var next := ptr + Decode(data[ptr..]).used;
    assert data[ptr..][Decode(data[ptr..]).used..] == data[next..];
    var at, len := next + Decode(data[next..]).used, Loose(data[next..]);
    if |data| - next >= 8 {
      assert data[next..][..8] == data[next..next + 8];
    }
    if len <= |data| - at {
      assert data[next..][at - next..at - next + len] == data[at..at + len];
    }
  }

  /** Every turn consumes at least one byte, so parsing ends on every byte string. */
  method ParseProtoHeader(data: seq<byte>) returns (h: Header)
    ensures h == ParseFrom(data, NO_HEADER)
  {
    hide Decode, Loose, ParseFrom, Turn, NoteNumber, Load64;
    h := NO_HEADER;
    var ptr := 0;
    assert data[0..] == data;
    while ptr < |data|
      invariant ptr <= |data|
      invariant ParseFrom(data[ptr..], h) == ParseFrom(data, NO_HEADER)
      decreases |data| - ptr
    {
      TurnInPlace(data, ptr, h);
      TurnInBuffer(data, ptr, h);
      var next, tag := ReadLoose(data, ptr);
      var fieldNumber := tag / 8 % TWO_32;
      var wireType := tag % 8;
      if wireType == 0 {
        var val;
        next, val := ReadLoose(data, next);
        h := NoteNumber(h, fieldNumber, val);
      } else if wireType == 1 {
        if |data| - next < 8 {
          return;
        }
        h := NoteNumber(h, fieldNumber, Load64(data[next..next + 8]));
        next := next + 8;
      } else if wireType == 2 {
        var at, len := ReadLoose(data, next);
        if len > |data| - at {
          return;
        }
        if fieldNumber == HDR_JOB_NAME {
          h := h.(name := data[at..at + len]);
        }
        next := at + len;
      } else if wireType == 5 {
        if |data| - next < 4 {
          return;
        }
        next := next + 4;
      } else {
        return;
      }
      ptr := next;
    }
    assert data[ptr..] == [];
    ParseFromEnd(h);
  }

  lemma ParseFromEnd(h: Header)
    ensures ParseFrom([], h) == h
  {
  }

  /** What one field of a well-formed header contributes. */
  function Note(h: Header, f: Field): Header
    requires f.head <= |f.raw|
  {
    if f.Wire() == WIRE_VARINT || f.Wire() == WIRE_FIXED64 then
      (match ScalarOf(f) case Some(s) => NoteNumber(h, f.Number(), s.value) case None => h)
    else if f.Wire() == WIRE_LENGTH_DELIM && f.Number() == HDR_JOB_NAME then h.(name := Content(f))
    else h
  }

  function NoteAll(h: Header, fs: seq<Field>): Header
    requires forall i :: 0 <= i < |fs| ==> fs[i].head <= |fs[i].raw|
    decreases fs
  {
    if fs == [] then h else NoteAll(Note(h, fs[0]), fs[1..])
  }

  /** Over well-formed bytes the parser notes field after field. */
  lemma {:induction false} ParseOverFields(a: seq<byte>, b: seq<byte>, h: Header)
    requires WellFormed(a, false)
    ensures ValidFields(Fields(a, false), false)
    ensures ShapedFields(Fields(a, false))
    ensures ParseFrom(a + b, h) == ParseFrom(b, NoteAll(h, Fields(a, false)))
    decreases |a|
  {
    hide ParseField, Turn, Note;
    FieldsAreValid(a, false);
    ValidAreShaped(Fields(a, false));
    if a == [] {
      EmptyHasNoField(false);
      assert a + b == b;
    } else {
      var f := ParseField(a, false).value;
      var rest := a[|f.raw|..];
      ParseOverFields(rest, b, Note(h, f));
      TurnOverField(a, b, h);
      assert (a + b)[|f.raw|..] == rest + b;
      assert Fields(a, false)[1..] == Fields(rest, false);
    }
  }

  predicate ShapedFields(fs: seq<Field>) {
    forall i :: 0 <= i < |fs| ==> fs[i].head <= |fs[i].raw|
  }

  lemma ValidAreShaped(fs: seq<Field>)
    requires ValidFields(fs, false)
    ensures ShapedFields(fs)
  {
    hide ParseField;
    forall i | 0 <= i < |fs|
      ensures fs[i].head <= |fs[i].raw|
    {
      assert ValidField(fs[i], false);
    }
  }

  /** A turn over a complete field consumes that field and notes its value. */
  lemma TurnOverField(a: seq<byte>, b: seq<byte>, h: Header)
    requires ParseField(a, false).Some?
    ensures var f := ParseField(a, false).value;
            0 < f.head <= |f.raw| <= |a| && Turn(a + b, h) == Some((|f.raw|, Note(h, f)))
  {
    hide ParseField, Decode, PayloadLength, Turn;
    var f := ParseField(a, false).value;
    assert f.raw <= a <= a + b;
    FieldIsLocal(a, a + b, false);
    TurnAt(a + b, f, h);
  }

  lemma TurnAt(s: seq<byte>, f: Field, h: Header)
    requires ParseField(s, false) == Some(f)
    ensures 0 < f.head <= |f.raw| && Turn(s, h) == Some((|f.raw|, Note(h, f)))
  {
    hide Turn, Note, Decode;
    FieldShape(s, f);
    hide ParseField, PayloadLength;
    if f.Wire() == WIRE_LENGTH_DELIM {
      TurnAtBytes(s, f, h);
    } else {
      TurnAtScalar(s, f, h);
    }
  }

  lemma FieldShape(s: seq<byte>, f: Field)
    requires ParseField(s, false) == Some(f)
    ensures 0 < f.head <= |f.raw| <= |s| && f.head == Decode(s).used && Decode(s).ok && f.tag == Decode(s).value
    ensures f.Wire() in {WIRE_VARINT, WIRE_FIXED64, WIRE_LENGTH_DELIM, WIRE_FIXED32}
  {
    hide Decode;
  }

  lemma TurnAtScalar(s: seq<byte>, f: Field, h: Header)
    requires ParseField(s, false) == Some(f) && f.Wire() != WIRE_LENGTH_DELIM
    ensures 0 < f.head <= |f.raw| && Turn(s, h) == Some((|f.raw|, Note(h, f)))
  {
    hide ParseField, Decode;
    FieldShape(s, f);
    assert s[0..] == s;
    StepOverField(s, 0, false);
    ScalarInPlace(s, 0, false);
    if f.Wire() == WIRE_FIXED64 {
      assert s[f.head..][..8] == s[f.head..f.head + 8];
    }
  }

  lemma TurnAtBytes(s: seq<byte>, f: Field, h: Header)
    requires ParseField(s, false) == Some(f) && f.Wire() == WIRE_LENGTH_DELIM
    ensures 0 < f.head <= |f.raw| && Turn(s, h) == Some((|f.raw|, Note(h, f)))
  {
    hide ParseField, Decode, PayloadLength;
    FieldShape(s, f);
    assert s[0..] == s;
    var at, end := ContentInPlace(s, 0, f, false);
    hide Content;
    SliceOfSlice(s, f.head, at - f.head, end);
    DropThenTake(s, f.head, at, end);
  }

  lemma DropThenTake(s: seq<byte>, a: nat, at: nat, end: nat)
    requires a <= at <= end <= |s|
    ensures s[a..][at - a..end - a] == s[at..end]
  {
  }
}
