/** Which files the store and the tool accept: those that begin with a packed file. */
module DepotFormat {
  import opened Words
  import opened TextCodecs
  import opened DepotKeys
  import opened DepotKeyTool

  /** The file begins with the packed form of these records. */
  predicate BeginsWith(data: seq<byte>, rs: seq<KeyRecord>) {
    KeysSized(rs) && FileOf(rs) <= data
  }

  /** The first records of a buffer, packed again, are the bytes they were read from. */
  lemma {:induction false} RecordsPackBack(data: seq<byte>, n: nat)
    requires |data| >= HEADER + n * RECORD
    ensures KeysSized(RawRecords(data, n)) && EntryBytes(RawRecords(data, n)) == data[HEADER..HEADER + n * RECORD]
  {
    hide Load32, ToBytes, RecordAt, EntryBytes;
    if n == 0 {
      NothingPacked();
    } else {
      RecordsPackBack(data, n - 1);
      var front, at := RawRecords(data, n - 1), HEADER + (n - 1) * RECORD;
      OneRecord(data, at);
      EntrySnoc(front, RawRecords(data, n), RecordAt(data, at));
      Reassociate(data[HEADER..at], data[at..at + 4], data[at + 4..at + RECORD]);
      assert data[HEADER..at] + data[at..at + RECORD] == data[HEADER..at + RECORD];
    }
  }

  lemma NothingPacked()
    ensures KeysSized([]) && EntryBytes([]) == []
  {
  }

  lemma OneRecord(data: seq<byte>, at: nat)
    requires at + RECORD <= |data|
    ensures var r := RecordAt(data, at);
            && |r.key| == KEY && r.key == data[at + 4..at + RECORD] && ToBytes(r.id, 4) == data[at..at + 4]
            && data[at..at + 4] + data[at + 4..at + RECORD] == data[at..at + RECORD]
  {
    hide Load32, ToBytes;
    assert ToBytes(Load32(data[at..at + 4]), 4) == data[at..at + 4];
  }

  lemma EntrySnoc(front: seq<KeyRecord>, rs: seq<KeyRecord>, r: KeyRecord)
    requires KeysSized(front) && |r.key| == KEY && rs == front + [r]
    ensures KeysSized(rs) && EntryBytes(rs) == EntryBytes(front) + ToBytes(r.id, 4) + r.key
  {
    hide ToBytes;
    assert rs[..|rs| - 1] == front;
  }

  /** The header of a packed file. */
  lemma HeaderStart(count: u32, data: seq<byte>)
    requires |data| >= HEADER
    ensures HeaderBytes(count) <= data <==>
            data[..8] == [0x4F, 0x4D, 0x4B, 0x59, 1, 0, 0, 0] && CountOf(data) == count
    ensures HeaderBytes(count) <= data <==>
            Load32(data[..4]) == OMKY_MAGIC && Load32(data[4..8]) == CURRENT_VERSION && CountOf(data) == count
    ensures Load32(data[..4]) == OMKY_MAGIC <==> data[..4] == MAGIC
  {
    hide Load32, ToBytes;
    MagicsAgree();
    VersionBytes();
    LoadStore32(OMKY_MAGIC);
    LoadStore32(CURRENT_VERSION);
    LoadStore32(count);
    var h := HeaderBytes(count);
    assert h[..4] == MAGIC && h[4..8] == ToBytes(CURRENT_VERSION, 4) && h[8..12] == ToBytes(count, 4);
    assert data[..12] == data[..4] + data[4..8] + data[8..12];
    assert data[..8] == data[..4] + data[4..8];
    assert h == h[..4] + h[4..8] + h[8..12];
    assert [0x4F, 0x4D, 0x4B, 0x59, 1, 0, 0, 0] == MAGIC + [1, 0, 0, 0];
    if h <= data {
      assert data[..4] == h[..4] && data[4..8] == h[4..8] && data[8..12] == h[8..12];
    }
    if data[..8] == [0x4F, 0x4D, 0x4B, 0x59, 1, 0, 0, 0] {
      assert data[..4] == data[..8][..4] == MAGIC && data[4..8] == data[..8][4..] == [1, 0, 0, 0];
    }
  }

  lemma VersionBytes()
    ensures ToBytes(CURRENT_VERSION, 4) == [1, 0, 0, 0]
  {
    assert ToBytes(0, 1) == [0];
    assert ToBytes(0, 2) == [0, 0];
    assert ToBytes(0, 3) == [0, 0, 0];
  }

  /** A buffer of the right header and room for its records begins with their packed form. */
  lemma BufferBegins(data: seq<byte>)
    requires |data| >= HEADER && data[..8] == [0x4F, 0x4D, 0x4B, 0x59, 1, 0, 0, 0]
    requires |data| >= HEADER + CountOf(data) * RECORD
    ensures BeginsWith(data, RawRecords(data, CountOf(data)))
  {
    hide Load32, ToBytes, EntryBytes, HeaderBytes, RawRecords;
    var n := CountOf(data);
    RecordsPackBack(data, n);
    HeaderStart(n, data);
    PrefixInTwo(data, HeaderBytes(n), EntryBytes(RawRecords(data, n)), HEADER + n * RECORD);
  }

  lemma PrefixInTwo(data: seq<byte>, a: seq<byte>, b: seq<byte>, end: nat)
    requires a <= data && |a| <= end <= |data| && b == data[|a|..end]
    ensures a + b <= data
  {
    assert data[..end] == a + b;
  }

  /** And conversely it has that header, those records and room for them. */
  lemma BeginningReads(data: seq<byte>, rs: seq<KeyRecord>)
    requires BeginsWith(data, rs) && |rs| < TWO_32
    ensures |data| >= HEADER + |rs| * RECORD && data[..8] == [0x4F, 0x4D, 0x4B, 0x59, 1, 0, 0, 0]
    ensures CountOf(data) == |rs| && RawRecords(data, |rs|) == rs
  {
    hide Load32, ToBytes, EntryBytes, HeaderBytes, RawRecords;
    var file := FileOf(rs);
    assert HeaderBytes(|rs|) <= data by {
      assert HeaderBytes(|rs|) == file[..HEADER] == data[..HEADER];
    }
    HeaderStart(|rs|, data);
    PackedFileReads(rs);
    RawRecordsOfPrefix(data, file, |rs|);
  }

  lemma {:induction false} RawRecordsOfPrefix(data: seq<byte>, file: seq<byte>, n: nat)
    requires file <= data && |file| >= HEADER + n * RECORD
    ensures RawRecords(data, n) == RawRecords(file, n)
  {
    hide Load32;
    if n > 0 {
      RawRecordsOfPrefix(data, file, n - 1);
      var at := HEADER + (n - 1) * RECORD;
      assert data[at..at + 4] == file[at..at + 4] && data[at + 4..at + RECORD] == file[at + 4..at + RECORD];
    }
  }

  /** The store accepts exactly the buffers that begin with a packed file of at most five million records. */
  lemma AcceptsIff(data: seq<byte>)
    ensures Accepts(data) <==> exists rs :: BeginsWith(data, rs) && |rs| <= 5_000_000
    ensures forall rs :: BeginsWith(data, rs) && |rs| <= 5_000_000 ==>
              |data| >= HEADER + |rs| * RECORD && RawRecords(data, |rs|) == rs && CountOf(data) == |rs|
  {
    hide Load32, RawRecords, BeginsWith;
    if |data| >= HEADER {
      HeaderStart(CountOf(data), data);
    }
    if Accepts(data) {
      BufferBegins(data);
    }
    forall rs | BeginsWith(data, rs) && |rs| <= 5_000_000
      ensures |data| >= HEADER + |rs| * RECORD && RawRecords(data, |rs|) == rs && CountOf(data) == |rs|
      ensures data[..8] == [0x4F, 0x4D, 0x4B, 0x59, 1, 0, 0, 0]
    {
      BeginningReads(data, rs);
    }
  }

  /** The tool reads exactly the buffers that begin with a packed file, and the dictionary is that of its records. */
  lemma UnpackableIff(data: seq<byte>)
    ensures Unpackable(data) <==> exists rs :: BeginsWith(data, rs) && |rs| < TWO_32
    ensures forall rs :: BeginsWith(data, rs) && |rs| < TWO_32 ==>
              |data| >= HEADER + |rs| * RECORD && RawRecords(data, |rs|) == rs && CountOf(data) == |rs|
  {
    hide Load32, RawRecords, BeginsWith;
    if |data| >= HEADER {
      HeaderStart(CountOf(data), data);
    }
    if Unpackable(data) {
      BufferBegins(data);
    }
    forall rs | BeginsWith(data, rs) && |rs| < TWO_32
      ensures |data| >= HEADER + |rs| * RECORD && RawRecords(data, |rs|) == rs && CountOf(data) == |rs|
      ensures data[..8] == [0x4F, 0x4D, 0x4B, 0x59, 1, 0, 0, 0]
    {
      BeginningReads(data, rs);
    }
  }
}
