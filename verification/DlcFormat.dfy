/** What loading makes of any cache file that begins with lists: trailing bytes, cut-off lists, lists over the limit. */
module DlcFormat {
  import opened Words
  import opened DlcCache

  /** Lists one after the other. */
  function Written(es: seq<Entry>): seq<byte> {
    if es == [] then [] else ListBytes(es[0].base, es[0].ids) + Written(es[1..])
  }

  predicate WithinLimit(es: seq<Entry>) {
    forall i :: 0 <= i < |es| ==> |es[i].ids| <= 10000
  }

  lemma {:induction false} WrittenThen(p: seq<byte>, es: seq<Entry>, tail: seq<byte>, n: nat)
    requires WithinLimit(es) && |es| <= n
    ensures EntriesFrom(p + Written(es) + tail, |p|, n) ==
            es + EntriesFrom(p + Written(es) + tail, |p + Written(es)|, n - |es|)
    decreases |es|
  {
    hide EntriesFrom, ListBytes;
    if es == [] {
      assert p + Written(es) == p;
      assert [] + EntriesFrom(p + tail, |p|, n) == EntriesFrom(p + tail, |p|, n);
    } else {
      var e, rest := es[0], es[1..];
      var own := ListBytes(e.base, e.ids);
      assert WithinLimit(rest);
      EntryReadsBack(p, e.base, e.ids, Written(rest) + tail, n);
      WrittenThen(p + own, rest, tail, n - 1);
      FirstWritten(p, es, tail);
      var later := EntriesFrom(p + Written(es) + tail, |p + Written(es)|, n - |es|);
      assert es == [e] + rest;
      Reassociate([e], rest, later);
    }
  }

  lemma FirstWritten(p: seq<byte>, es: seq<Entry>, tail: seq<byte>)
    requires es != []
    ensures var own, rest := ListBytes(es[0].base, es[0].ids), Written(es[1..]);
            && p + Written(es) + tail == p + own + (rest + tail) == p + own + rest + tail
            && p + Written(es) == p + own + rest
  {
    hide ListBytes;
    Reassociate(p, ListBytes(es[0].base, es[0].ids), Written(es[1..]));
    Reassociate(p + ListBytes(es[0].base, es[0].ids), Written(es[1..]), tail);
  }

  lemma FileThen(count: u32, es: seq<Entry>, tail: seq<byte>)
    requires WithinLimit(es) && |es| <= count
    ensures var data := Preamble(count) + Written(es) + tail;
            FileEntries(data) == es + EntriesFrom(data, |Preamble(count) + Written(es)|, count - |es|)
  {
    hide FileEntries, EntriesFrom, Written, Preamble;
    Reassociate(Preamble(count), Written(es), tail);
    PreambleReads(count, Written(es) + tail);
    WrittenThen(Preamble(count), es, tail, count);
  }

  /** As many lists are read as the header counts, whatever follows them. */
  lemma TrailingBytesAreIgnored(es: seq<Entry>, tail: seq<byte>)
    requires WithinLimit(es) && |es| < TWO_32
    ensures FileEntries(Preamble(|es|) + Written(es) + tail) == es
  {
    hide FileEntries, Written, Preamble, EntriesFrom;
    FileThen(|es|, es, tail);
    NoEntriesLeft(Preamble(|es|) + Written(es) + tail, |Preamble(|es|) + Written(es)|);
    assert es + [] == es;
  }

  /** A list of more than 10000 ids ends the file, whatever the header counts and whatever follows. */
  lemma LongListEndsFile(count: u32, es: seq<Entry>, base: u32, ids: seq<u32>, tail: seq<byte>)
    requires WithinLimit(es) && |es| < count && 10000 < |ids| < TWO_32
    ensures FileEntries(Preamble(count) + Written(es) + (ListBytes(base, ids) + tail)) == es
  {
    hide FileEntries, Written, Preamble, EntriesFrom, ListBytes;
    var p := Preamble(count) + Written(es);
    FileThen(count, es, ListBytes(base, ids) + tail);
    Reassociate(p, ListBytes(base, ids), tail);
    EntryReadsBack(p, base, ids, tail, count - |es|);
    assert es + [] == es;
  }

  // ---- files that are cut off ----------------------------------------------------------------------

  /** The ids whose bytes are all among the first `m`, the low bytes of the one cut through, and zeros. */
  function Padded(ids: seq<u32>, m: nat): (out: seq<u32>)
    ensures |out| == |ids|
  {
    seq(|ids|, i requires 0 <= i < |ids| => PaddedId(ids[i], m - 4 * i))
  }

  /** What is left of an id when `k` of its bytes are there. */
  function PaddedId(id: u32, k: int): u32 {
    if k >= 4 then id
    else if k == 3 then Low(id, 0x100_0000)
    else if k == 2 then Low(id, 0x1_0000)
    else if k == 1 then Low(id, 0x100)
    else 0
  }

  function Low(id: u32, n: u32): u32
    requires n > 0
  {
    id % n
  }

  /** A file cut off inside a list is read up to there: a list cut in its header is lost, else its ids are padded. */
  lemma CutFileReads(count: u32, es: seq<Entry>, base: u32, ids: seq<u32>, m: nat)
    requires WithinLimit(es) && |es| < count && |ids| <= 10000 && m < 8 + 4 * |ids|
    ensures FileEntries(Preamble(count) + Written(es) + ListBytes(base, ids)[..m]) ==
            if m < 8 then es else es + [Entry(base, Padded(ids, m - 8))]
  {
    hide FileEntries, Written, Preamble, EntriesFrom, ListBytes, Padded;
    var p := Preamble(count) + Written(es);
    FileThen(count, es, ListBytes(base, ids)[..m]);
    CutListReads(p, base, ids, m, count - |es|);
    assert es + [] == es;
  }

  lemma CutListReads(p: seq<byte>, base: u32, ids: seq<u32>, m: nat, n: nat)
    requires n > 0 && |ids| <= 10000 && m < 8 + 4 * |ids|
    ensures EntriesFrom(p + ListBytes(base, ids)[..m], |p|, n) ==
            if m < 8 then [] else [Entry(base, Padded(ids, m - 8))]
  {
    hide Load32, ToBytes, IdBytes, ReadIds, Padded;
    if m >= 8 {
      CutHeader(p, base, ids, m);
      CutIdsRead(p, base, ids, m);
    }
  }

  lemma CutHeader(p: seq<byte>, base: u32, ids: seq<u32>, m: nat)
    requires |ids| < TWO_32 && 8 <= m <= 8 + 4 * |ids|
    ensures var data := p + ListBytes(base, ids)[..m];
            Load32(data[|p|..|p| + 4]) == base && Load32(data[|p| + 4..|p| + 8]) == |ids|
  {
    hide Load32, ToBytes, IdBytes;
    var own := ListBytes(base, ids);
    var data := p + own[..m];
    assert own[..4] == ToBytes(base, 4) && own[4..8] == ToBytes(|ids|, 4);
    assert data[|p|..|p| + 4] == own[..4] && data[|p| + 4..|p| + 8] == own[4..8];
    LoadStore32(base);
    LoadStore32(|ids|);
  }

  lemma CutIdsRead(p: seq<byte>, base: u32, ids: seq<u32>, m: nat)
    requires 8 <= m <= 8 + 4 * |ids|
    ensures ReadIds(p + ListBytes(base, ids)[..m], |p| + 8, |ids|) == Padded(ids, m - 8)
  {
    hide Load32, ToBytes, IdBytes, PaddedWord, PaddedId, ListBytes;
    var data := p + ListBytes(base, ids)[..m];
    forall i | 0 <= i < |ids|
      ensures PaddedWord(data, |p| + 8 + 4 * i) == PaddedId(ids[i], m - 8 - 4 * i)
    {
      CutIdReads(p, base, ids, m, i);
    }
  }

  lemma CutIdReads(p: seq<byte>, base: u32, ids: seq<u32>, m: nat, i: nat)
    requires 8 <= m <= 8 + 4 * |ids| && i < |ids|
    ensures PaddedWord(p + ListBytes(base, ids)[..m], |p| + 8 + 4 * i) == PaddedId(ids[i], m - 8 - 4 * i)
  {
    hide Load32, ToBytes, PaddedId, IdBytes;
    var own, data, at := ListBytes(base, ids), p + ListBytes(base, ids)[..m], |p| + 8 + 4 * i;
    IdBytesAt(ids, i);
    var w := ToBytes(ids[i], 4);
    var k := m - 8 - 4 * i;
    assert own[8 + 4 * i..12 + 4 * i] == w;
    forall j | 0 <= j < 4
      ensures ByteAt(data, at + j) == if j < k then w[j] else 0
    {
      assert own[8 + 4 * i + j] == w[j];
    }
    PaddedWordIs(ids[i], k);
  }

  lemma PaddedWordIs(id: u32, k: int)
    ensures var w := ToBytes(id, 4);
            Load32([if 0 < k then w[0] else 0, if 1 < k then w[1] else 0, if 2 < k then w[2] else 0,
                    if 3 < k then w[3] else 0]) == PaddedId(id, k)
  {
    hide Load32, ToBytes, Digits, Low;
    var w := ToBytes(id, 4);
    var b0: byte, b1: byte, b2: byte, b3: byte :=
      if 0 < k then w[0] else 0, if 1 < k then w[1] else 0, if 2 < k then w[2] else 0, if 3 < k then w[3] else 0;
    LittleEndian32([b0, b1, b2, b3]);
    LittleEndian32(w);
    LoadStore32(id);
    LowBytes(id, w[0], w[1], w[2], w[3]);
    NoBytes();
  }

  lemma NoBytes()
    ensures Digits(0, 0, 0, 0) == 0
  {
  }

  /** Cutting a word at its byte boundaries. */
  lemma LowBytes(id: u32, a: byte, b: byte, c: byte, d: byte)
    requires id == Digits(a, b, c, d)
    ensures Low(id, 0x100) == Digits(a, 0, 0, 0)
    ensures Low(id, 0x1_0000) == Digits(a, b, 0, 0)
    ensures Low(id, 0x100_0000) == Digits(a, b, c, 0)
  {
    Divide(id, 0x100, Digits(b, c, d, 0), a);
    Divide(id, 0x1_0000, Digits(c, d, 0, 0), Digits(a, b, 0, 0));
    Divide(id, 0x100_0000, d, Digits(a, b, c, 0));
  }

  // ---- foreign files -------------------------------------------------------------------------------------

  /** Only a file that starts with these eight bytes is read at all. */
  lemma ForeignFileIsIgnored(data: seq<byte>)
    requires FileEntries(data) != []
    ensures |data| >= 12 && data[..8] == [0x43, 0x44, 0x4D, 0x4F, 1, 0, 0, 0]
  {
    hide Load32, ToBytes, EntriesFrom;
    CacheMagicBytes();
    LoadStore32(CACHE_MAGIC);
    LoadStore32(CACHE_VERSION);
    assert data[..4] == ToBytes(CACHE_MAGIC, 4) && data[4..8] == ToBytes(CACHE_VERSION, 4);
    assert data[..8] == data[..4] + data[4..8];
  }

  lemma CacheMagicBytes()
    ensures ToBytes(CACHE_MAGIC, 4) == [0x43, 0x44, 0x4D, 0x4F] && ToBytes(CACHE_VERSION, 4) == [1, 0, 0, 0]
  {
    assert ToBytes(0x4F, 1) == [0x4F];
    assert ToBytes(0x4F4D, 2) == [0x4D, 0x4F];
    assert ToBytes(0x4F4D44, 3) == [0x44, 0x4D, 0x4F];
    assert ToBytes(0, 1) == [0];
    assert ToBytes(0, 2) == [0, 0];
    assert ToBytes(0, 3) == [0, 0, 0];
  }
}
