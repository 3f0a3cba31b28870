/** Rewriting a service response, and synthesizing responses, checked by reading the frames back. */
module Injection {
  import opened Words
  import opened Varints
  import opened Messages
  import opened ProtoFields
  import opened Frames
  import opened PacketPool

  /** The header with `eresult` overridden, and the body with the request code overridden. */
  function OverriddenHeader(header: seq<byte>): seq<byte> {
    header + [TAG_ERESULT_VARINT] + Encode(ERESULT_OK)
  }

  function OverriddenBody(body: seq<byte>, code: u64): seq<byte> {
    body + [TAG_MANIFEST_REQUEST_CODE] + Encode(code)
  }

  /** Points the packet at a rewritten frame; leaves it alone when the frame does not fit a buffer. */
  method TryInjectRequestCode(code: u64, header: seq<byte>, body: seq<byte>, packet: CNetPacket, pool: Pool)
    returns (ok: bool)
    requires pool.Valid()
    modifies packet, pool, pool.slots
    ensures pool.Valid()
    ensures ok <==> PREFIX + |OverriddenHeader(header)| + |OverriddenBody(body, code)| <= MAX_PACKET_SIZE
    ensures !ok ==> packet.data == old(packet.data) && packet.size == old(packet.size)
    ensures ok ==> packet.size <= packet.data.Length
                   && packet.data[..packet.size] ==
                      Frame(WithFlag(EMSG_SERVICE_METHOD_RESPONSE),
                            OverriddenHeader(header), OverriddenBody(body, code))
  {
    hide Encode, ToBytes;
    var newHdr := new ByteVector(header);
    newHdr.PushBack(TAG_ERESULT_VARINT);
    WriteVarint(newHdr, ERESULT_OK);
    var newBody := new ByteVector(body);
    newBody.PushBack(TAG_MANIFEST_REQUEST_CODE);
    WriteVarint(newBody, code);
    var poolBuf, newSize := BuildPooledFrame(pool, WithFlag(EMSG_SERVICE_METHOD_RESPONSE), newHdr.bytes, newBody.bytes);
    if poolBuf == null {
      return false;
    }
    packet.data := poolBuf;
    packet.size := newSize;
    return true;
  }

  /** The appended bytes are the canonical override fields. */
  lemma OverridesAreFields(header: seq<byte>, body: seq<byte>, code: u64)
    ensures OverriddenHeader(header) == header + VarintField(HDR_ERESULT, ERESULT_OK).raw
    ensures OverriddenBody(body, code) == body + VarintField(1, code).raw
  {
    assert Encode(TagOf(HDR_ERESULT, WIRE_VARINT)) == [TAG_ERESULT_VARINT];
    assert Encode(TagOf(1, WIRE_VARINT)) == [TAG_MANIFEST_REQUEST_CODE];
    hide Encode;
    assert header + ([TAG_ERESULT_VARINT] + Encode(ERESULT_OK)) == OverriddenHeader(header);
    assert body + ([TAG_MANIFEST_REQUEST_CODE] + Encode(code)) == OverriddenBody(body, code);
  }

  /** A header field that is no job id or name does not change what the parser finds. */
  lemma OtherHeaderFieldIgnored(header: seq<byte>, number: u32, value: u64)
    requires WellFormed(header, false)
    requires number != HDR_JOBID_SOURCE && number != HDR_JOBID_TARGET
    ensures ParseFrom(header + VarintField(number, value).raw, NO_HEADER) == ParseFrom(header, NO_HEADER)
  {
    hide Fields, WellFormed, ParseField, Turn, NoteAll, VarintField, ParseFrom;
    var f := VarintField(number, value);
    VarintFieldIsValid(number, value, false);
    ParseOverFields(header, f.raw, NO_HEADER);
    ParseOverFields(header, [], NO_HEADER);
    assert header + [] == header;
    OneFieldParses(f, NoteAll(NO_HEADER, Fields(header, false)));
    ParseFromEnd(NoteAll(NO_HEADER, Fields(header, false)));
  }

  lemma OneFieldParses(f: Field, h: Header)
    requires ValidField(f, false)
    ensures 0 < f.head <= |f.raw| && ParseFrom(f.raw, h) == Note(h, f)
  {
    hide ParseField, Turn, Note;
    TurnOverField(f.raw, [], h);
    assert f.raw + [] == f.raw && f.raw[|f.raw|..] == [];
  }

  /**
    * Unpacking the rewritten frame gives the new header and body. A well-formed header still yields its job
    * ids and job name and now reports success; a well-formed body now carries the code.
    */
  lemma InjectedFrameReads(code: u64, header: seq<byte>, body: seq<byte>)
    requires PREFIX + |OverriddenHeader(header)| < TWO_32
    ensures var f := Frame(WithFlag(EMSG_SERVICE_METHOD_RESPONSE),
                           OverriddenHeader(header), OverriddenBody(body, code));
            var n := |OverriddenHeader(header)|;
            && Unpack(f) == Some(Parts(147, n, 8 + n, |OverriddenBody(body, code)|))
            && f[8..8 + n] == OverriddenHeader(header) && f[8 + n..] == OverriddenBody(body, code)
    ensures header <= OverriddenHeader(header) && body <= OverriddenBody(body, code)
    ensures WellFormed(header, false) ==>
              ParseFrom(OverriddenHeader(header), NO_HEADER) == ParseFrom(header, NO_HEADER)
    ensures WellFormed(header, true) ==>
              && VarintValue(OverriddenHeader(header), 13) == Some(1)
              && forall n: u32 :: n != 13 ==> GetScalar(OverriddenHeader(header), n) == GetScalar(header, n)
    ensures WellFormed(body, true) ==>
              && VarintValue(OverriddenBody(body, code), 1) == Some(code)
              && forall n: u32 :: n != 1 ==> GetScalar(OverriddenBody(body, code), n) == GetScalar(body, n)
  {
    hide Fields, WellFormed, ParseField, Encode, ParseFrom, VarintField, Frame, Unpack, GetScalar;
    UnpackFrame(WithFlag(EMSG_SERVICE_METHOD_RESPONSE), OverriddenHeader(header), OverriddenBody(body, code));
    OverridesAreFields(header, body, code);
    if WellFormed(header, false) {
      OtherHeaderFieldIgnored(header, HDR_ERESULT, ERESULT_OK);
    }
    if WellFormed(header, true) {
      AppendedVarintReads(header, HDR_ERESULT, ERESULT_OK);
    }
    if WellFormed(body, true) {
      AppendedVarintReads(body, 1, code);
    }
  }

  lemma AppendedVarintReads(m: seq<byte>, number: u32, value: u64)
    requires WellFormed(m, true) && number != 0
    ensures VarintValue(m + VarintField(number, value).raw, number) == Some(value)
    ensures forall n: u32 :: n != number ==> GetScalar(m + VarintField(number, value).raw, n) == GetScalar(m, n)
  {
    hide Fields, WellFormed, ParseField, GetScalar, VarintField, ScalarOf;
    VarintFieldIsValid(number, value, true);
    AppendOverrides(m, VarintField(number, value), number);
    forall n: u32 | n != number
      ensures GetScalar(m + VarintField(number, value).raw, n) == GetScalar(m, n)
    {
      AppendOverrides(m, VarintField(number, value), n);
    }
  }

  // ---- synthesized responses --------------------------------------------------------------

  method AssemblePacket(eMsg: u32, header: seq<byte>, body: seq<byte>) returns (pkt: array<byte>)
    requires |header| < TWO_32
    ensures fresh(pkt) && pkt[..] == Frame(WithFlag(eMsg), header, body)
  {
    hide ToBytes;
    pkt := new byte[PREFIX + |header| + |body|];
    CopyIn(pkt, 0, ToBytes(WithFlag(eMsg), 4));
    assert pkt[..4] == ToBytes(WithFlag(eMsg), 4);
    CopyIn(pkt, 4, ToBytes(|header|, 4));
    assert pkt[..8] == ToBytes(WithFlag(eMsg), 4) + ToBytes(|header|, 4);
    CopyIn(pkt, 8, header);
    assert pkt[..8 + |header|] == ToBytes(WithFlag(eMsg), 4) + ToBytes(|header|, 4) + header;
    CopyIn(pkt, 8 + |header|, body);
    SplitAt(pkt[..], 8 + |header|, pkt[..8 + |header|], body);
  }

  lemma SplitAt(s: seq<byte>, k: nat, front: seq<byte>, rest: seq<byte>)
    requires k <= |s| && s[..k] == front && s[k..] == rest
    ensures s == front + rest
  {
  }

  function ServiceHeaderFields(jobId: u64, jobName: seq<byte>): seq<Field> {
    [Fixed64Field(HDR_JOBID_TARGET, jobId), BytesField(HDR_JOB_NAME, jobName), VarintField(HDR_ERESULT, ERESULT_OK)]
  }

  /** An empty successful answer to a service call. */
  method BuildServiceResponse(jobId: u64, jobName: seq<byte>) returns (pkt: array<byte>)
    requires |Flatten(ServiceHeaderFields(jobId, jobName))| < TWO_32
    ensures pkt[..] == Frame(WithFlag(EMSG_SERVICE_METHOD_RESPONSE), Flatten(ServiceHeaderFields(jobId, jobName)), [])
  {
    hide Encode, Flatten, Fixed64Field, BytesField, VarintField, Frame;
    ThreeFields(Fixed64Field(HDR_JOBID_TARGET, jobId), BytesField(HDR_JOB_NAME, jobName),
                VarintField(HDR_ERESULT, ERESULT_OK));
    ContentFits(HDR_JOB_NAME, jobName);
    var header := new ByteVector([]);
    AppendFixed64Field(header, HDR_JOBID_TARGET, jobId);
    AppendBytesField(header, HDR_JOB_NAME, jobName);
    AppendVarintField(header, HDR_ERESULT, ERESULT_OK);
    assert header.bytes == Flatten(ServiceHeaderFields(jobId, jobName));
    pkt := AssemblePacket(EMSG_SERVICE_METHOD_RESPONSE, header.bytes, []);
  }

  lemma ContentFits(number: u32, content: seq<byte>)
    ensures |content| <= |BytesField(number, content).raw|
  {
    hide Encode;
  }

  lemma ThreeFields(f: Field, g: Field, h: Field)
    ensures Flatten([f, g, h]) == f.raw + g.raw + h.raw
  {
    assert [f, g, h][1..] == [g, h] && [g, h][1..] == [h] && [h][1..] == [];
    assert Flatten([h]) == h.raw;
    assert Flatten([g, h]) == g.raw + h.raw;
    assert f.raw + (g.raw + (h.raw + [])) == f.raw + g.raw + h.raw;
  }

  /** The header parser finds the job in a synthesized answer, and the answer reports success. */
  lemma ServiceResponseReads(jobId: u64, jobName: seq<byte>)
    requires |Flatten(ServiceHeaderFields(jobId, jobName))| < TWO_32
    ensures var header := Flatten(ServiceHeaderFields(jobId, jobName));
            && ParseFrom(header, NO_HEADER) == Header(0, jobId, jobName)
            && VarintValue(header, 13) == Some(1)
  {
    hide Encode, Flatten, Fixed64Field, BytesField, VarintField, ParseField, ParseFrom, Fields, WellFormed, Content,
         ScalarOf, LastScalar;
    var fs := ServiceHeaderFields(jobId, jobName);
    var f, g, h := fs[0], fs[1], fs[2];
    ThreeFields(f, g, h);
    ContentFits(HDR_JOB_NAME, jobName);
    Fixed64FieldIsValid(HDR_JOBID_TARGET, jobId, true);
    BytesFieldIsValid(HDR_JOB_NAME, jobName, true);
    VarintFieldIsValid(HDR_ERESULT, ERESULT_OK, true);
    assert ValidFields(fs, true);
    FlattenIsWellFormed(fs, true);
    StrictIsLenient(Flatten(fs));
    var header := Flatten(fs);
    ParseOverFields(header, [], NO_HEADER);
    assert header + [] == header;
    ParseFromEnd(NoteAll(NO_HEADER, fs));
    NotesOfThree(f, g, h);
    ValidFieldShape(h, true);
    LastScalarSnoc([f, g], h, HDR_ERESULT);
    assert fs == [f, g] + [h];
  }

  lemma NotesOfThree(f: Field, g: Field, h: Field)
    requires f.head <= |f.raw| && g.head <= |g.raw| && h.head <= |h.raw|
    ensures NoteAll(NO_HEADER, [f, g, h]) == Note(Note(Note(NO_HEADER, f), g), h)
  {
    hide Note;
    var x := Note(NO_HEADER, f);
    assert [f, g, h][1..] == [g, h] && [g, h][1..] == [h] && [h][1..] == [];
    assert NoteAll(Note(x, g), [h]) == Note(Note(x, g), h);
    assert NoteAll(x, [g, h]) == NoteAll(Note(x, g), [h]);
  }

  function LegacyBodyFields(gameId: u64): seq<Field> {
    [Fixed64Field(1, gameId), VarintField(2, ERESULT_OK), VarintField(3, 0)]
  }

  /** An empty successful answer to a legacy request, with the request's header kept verbatim. */
  method BuildLegacyResponse(header: seq<byte>, gameId: u64) returns (pkt: array<byte>)
    requires |header| < TWO_32
    ensures pkt[..] == Frame(WithFlag(EMSG_USER_STATS_RESPONSE), header, Flatten(LegacyBodyFields(gameId)))
  {
    hide Encode, Flatten, Fixed64Field, VarintField, Frame;
    ThreeFields(Fixed64Field(1, gameId), VarintField(2, ERESULT_OK), VarintField(3, 0));
    var body := new ByteVector([]);
    AppendFixed64Field(body, 1, gameId);
    AppendVarintField(body, 2, ERESULT_OK);
    AppendVarintField(body, 3, 0);
    assert body.bytes == Flatten(LegacyBodyFields(gameId));
    pkt := AssemblePacket(EMSG_USER_STATS_RESPONSE, header, body.bytes);
  }

  lemma LegacyResponseReads(gameId: u64)
    ensures var body := Flatten(LegacyBodyFields(gameId));
            && GetScalar(body, 1) == Some(Scalar(gameId, WIRE_FIXED64))
            && GetScalar(body, 2) == Some(Scalar(1, WIRE_VARINT))
            && GetScalar(body, 3) == Some(Scalar(0, WIRE_VARINT))
  {
    hide Encode, Flatten, Fixed64Field, VarintField, ParseField, Fields, WellFormed, ScalarOf, LastScalar;
    var fs := LegacyBodyFields(gameId);
    Fixed64FieldIsValid(1, gameId, true);
    VarintFieldIsValid(2, ERESULT_OK, true);
    VarintFieldIsValid(3, 0, true);
    assert ValidFields(fs, true);
    FlattenIsWellFormed(fs, true);
    assert fs == [fs[0], fs[1]] + [fs[2]] && [fs[0], fs[1]] == [fs[0]] + [fs[1]] && [fs[0]] == [] + [fs[0]];
    ValidFieldShape(fs[0], true);
    ValidFieldShape(fs[1], true);
    ValidFieldShape(fs[2], true);
    forall n: u32 | n == 1 || n == 2 || n == 3
      ensures LastScalar(fs, n) == ScalarOf(fs[n - 1])
    {
      LastScalarSnoc([fs[0], fs[1]], fs[2], n);
      LastScalarSnoc([fs[0]], fs[1], n);
      LastScalarSnoc([], fs[0], n);
    }
  }

  /** How long a legacy answer is: the request's header and 21 bytes. */
  lemma LegacyResponseLength(header: seq<byte>, gameId: u64)
    ensures |Frame(WithFlag(EMSG_USER_STATS_RESPONSE), header, Flatten(LegacyBodyFields(gameId)))| == |header| + 21
  {
    hide Flatten, Encode, ToBytes, VarintField, Fixed64Field;
    ThreeFields(Fixed64Field(1, gameId), VarintField(2, ERESULT_OK), VarintField(3, 0));
    LegacyFieldLengths(gameId);
  }

  lemma LegacyFieldLengths(gameId: u64)
    ensures |Fixed64Field(1, gameId).raw| == 9
    ensures |VarintField(2, ERESULT_OK).raw| == 2 && |VarintField(3, 0).raw| == 2
  {
    assert Encode(9) == [9] && Encode(16) == [16] && Encode(24) == [24];
    assert Encode(1) == [1] && Encode(0) == [0];
  }

  /**
    * A request for the statistics of a game that itself fits a buffer, with a header so long that the answer
    * queued for it fits none.
    */
  lemma AnswerOutgrowsBuffer(header: seq<byte>, gameId: u64)
    requires 66547 < |header| <= 66551
    ensures var request := Frame(WithFlag(EMSG_GET_USER_STATS), header, Fixed64Field(1, gameId).raw);
            var answer := Frame(WithFlag(EMSG_USER_STATS_RESPONSE), header, Flatten(LegacyBodyFields(gameId)));
            && |request| <= MAX_PACKET_SIZE < |answer|
            && Unpack(request) == Some(Parts(818, |header|, 8 + |header|, 9))
            && GetScalar(Fixed64Field(1, gameId).raw, 1) == Some(Scalar(gameId, WIRE_FIXED64))
  {
    hide Flatten, Encode, ToBytes, VarintField, Fixed64Field, Unpack, Frame, GetScalar, LegacyBodyFields;
    LegacyResponseLength(header, gameId);
    LegacyFieldLengths(gameId);
    FrameLength(WithFlag(EMSG_GET_USER_STATS), header, Fixed64Field(1, gameId).raw);
    UnpackFrame(WithFlag(EMSG_GET_USER_STATS), header, Fixed64Field(1, gameId).raw);
    LoneFixed64Reads(gameId);
  }

  lemma FrameLength(word: u32, header: seq<byte>, body: seq<byte>)
    ensures |Frame(word, header, body)| == PREFIX + |header| + |body|
  {
  }

  lemma LoneFixed64Reads(gameId: u64)
    ensures GetScalar(Fixed64Field(1, gameId).raw, 1) == Some(Scalar(gameId, WIRE_FIXED64))
  {
    hide ParseField, WellFormed, Fields, Fixed64Field, ScalarOf, Flatten;
    var f := Fixed64Field(1, gameId);
    Fixed64FieldIsValid(1, gameId, true);
    EmptyIsWellFormed(true);
    AppendOverrides([], f, 1);
    assert [] + f.raw == f.raw;
  }
}
