/** The ring of reusable packet buffers and the delivery of queued responses on a borrowed carrier packet. */
module PacketPool {
  import opened Words
  import opened Frames

  const POOL_SIZE: nat := 32
  const MAX_BODY_SIZE: nat := 65536
  const MAX_HDR_SIZE: nat := 1024
  const MAX_PACKET_SIZE: nat := 8 + MAX_HDR_SIZE + MAX_BODY_SIZE

  /** The client's packet: a buffer it points to and how many of its bytes count. */
  class CNetPacket {
    var data: array<byte>
    var size: nat

    constructor (data: array<byte>, size: nat)
      ensures this.data == data && this.size == size
    {
      this.data := data;
      this.size := size;
    }
  }

  /** Thirty-two buffers handed out in turn. */
  class Pool {
    const slots: seq<array<byte>>
    var index: nat

    ghost predicate Valid()
      reads this
    {
      && |slots| == POOL_SIZE
      && (forall i :: 0 <= i < POOL_SIZE ==> slots[i].Length == MAX_PACKET_SIZE)
      && (forall i, j :: 0 <= i < j < POOL_SIZE ==> slots[i] != slots[j])
      && index < POOL_SIZE
    }

    constructor (slots: seq<array<byte>>)
      requires |slots| == POOL_SIZE
      requires forall i :: 0 <= i < POOL_SIZE ==> slots[i].Length == MAX_PACKET_SIZE
      requires forall i, j :: 0 <= i < j < POOL_SIZE ==> slots[i] != slots[j]
      ensures Valid() && this.slots == slots && index == 0
    {
      this.slots := slots;
      index := 0;
    }

    /** The next buffer, or none when the request is larger than a buffer. */
    method AcquirePacketSlot(needed: nat) returns (buf: array?<byte>)
      requires Valid()
      modifies this
      ensures Valid()
      ensures if needed > MAX_PACKET_SIZE then buf == null && index == old(index)
              else buf == slots[old(index)] && index == (old(index) + 1) % POOL_SIZE
    {
      if needed > MAX_PACKET_SIZE {
        return null;
      }
      buf := slots[index];
      index := (index + 1) % POOL_SIZE;
    }
  }

  /** The index after `n` successful acquisitions. */
  function IndexAfter(start: nat, n: nat): nat {
    if n == 0 then start else (IndexAfter(start, n - 1) + 1) % POOL_SIZE
  }

  lemma {:induction false} IndexAfterIs(start: nat, n: nat)
    requires start < POOL_SIZE
    ensures IndexAfter(start, n) == (start + n) % POOL_SIZE
  {
    if n > 0 {
      IndexAfterIs(start, n - 1);
      NextRemainder(start + n - 1);
    }
  }

  lemma NextRemainder(x: nat)
    ensures (x % POOL_SIZE + 1) % POOL_SIZE == (x + 1) % POOL_SIZE
  {
  }

  /** Any thirty-two consecutive acquisitions return distinct buffers. */
  lemma ConsecutiveSlotsDiffer(pool: Pool, start: nat, i: nat, j: nat)
    requires pool.Valid() && start < POOL_SIZE && i < j < i + POOL_SIZE
    ensures IndexAfter(start, i) < POOL_SIZE && IndexAfter(start, j) < POOL_SIZE
    ensures pool.slots[IndexAfter(start, i)] != pool.slots[IndexAfter(start, j)]
  {
    IndexAfterIs(start, i);
    IndexAfterIs(start, j);
    var a, b := (start + i) % POOL_SIZE, (start + j) % POOL_SIZE;
    DifferentRemainders(start + i, start + j);
    if a < b {
      assert pool.slots[a] != pool.slots[b];
    } else {
      assert pool.slots[b] != pool.slots[a];
    }
  }

  /** Slot `k` is among the next `n` handed out. */
  predicate HandedOut(start: nat, n: nat, k: nat) {
    exists i :: 0 <= i < n && IndexAfter(start, i) == k
  }

  lemma HandedOutNext(start: nat, n: nat)
    ensures HandedOut(start, n + 1, IndexAfter(start, n))
    ensures forall k :: HandedOut(start, n, k) ==> HandedOut(start, n + 1, k)
  {
  }

  lemma DifferentRemainders(x: nat, y: nat)
    requires x < y < x + POOL_SIZE
    ensures x % POOL_SIZE != y % POOL_SIZE
  {
  }

  /** Copies `bytes` to the front of the buffer: a `memcpy`. */
  method CopyIn(buf: array<byte>, at: nat, bytes: seq<byte>)
    requires at + |bytes| <= buf.Length
    modifies buf
    ensures buf[..at] == old(buf[..at]) && buf[at..at + |bytes|] == bytes
    ensures buf[at + |bytes|..] == old(buf[at + |bytes|..])
  {
    forall i | 0 <= i < |bytes| {
      buf[at + i] := bytes[i];
    }
  }

  /** Assembles a replacement frame in the next pool buffer; none when it does not fit. */
  method BuildPooledFrame(pool: Pool, word: u32, header: seq<byte>, body: seq<byte>)
    returns (buf: array?<byte>, size: nat)
    requires pool.Valid()
    modifies pool, pool.slots
    ensures pool.Valid()
    ensures size == PREFIX + |header| + |body|
    ensures if size > MAX_PACKET_SIZE
            then buf == null && pool.index == old(pool.index)
            else buf == pool.slots[old(pool.index)] && buf.Length == MAX_PACKET_SIZE
                 && buf[..size] == Frame(word, header, body)
                 && pool.index == (old(pool.index) + 1) % POOL_SIZE
    ensures forall s :: s in pool.slots && s != buf ==> s[..] == old(s[..])
  {
    hide ToBytes;
    size := PREFIX + |header| + |body|;
    buf := pool.AcquirePacketSlot(size);
    if buf == null {
      return;
    }
    CopyIn(buf, 0, ToBytes(word, 4));
    assert buf[..4] == ToBytes(word, 4);
    CopyIn(buf, 4, ToBytes(|header|, 4));
    assert buf[..8] == ToBytes(word, 4) + ToBytes(|header|, 4);
    CopyIn(buf, 8, header);
    assert buf[..8 + |header|] == ToBytes(word, 4) + ToBytes(|header|, 4) + header;
    CopyIn(buf, 8 + |header|, body);
    assert buf[..size] == buf[..8 + |header|] + buf[8 + |header|..size];
  }
}
