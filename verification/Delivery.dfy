/** Draining a queue of synthesized responses by borrowing the carrier packet for one call each. */
module Delivery {
  import opened Words
  import opened PacketPool

  /** A queue of responses waiting for a carrier. */
  class ResponseQueue {
    var items: seq<seq<byte>>

    constructor ()
      ensures items == []
    {
      items := [];
    }
  }

  /** The client's own receive routine, as a record of the payloads it was called with. */
  class Receiver {
    var seen: seq<seq<byte>>

    constructor ()
      ensures seen == []
    {
      seen := [];
    }

    method Receive(packet: CNetPacket)
      requires packet.size <= packet.data.Length
      modifies this
      ensures seen == old(seen) + [packet.data[..packet.size]]
    {
      seen := seen + [packet.data[..packet.size]];
    }
  }

  /** The non-empty responses in front of the first one that no buffer can hold. */
  function Delivered(items: seq<seq<byte>>): seq<seq<byte>> {
    if items == [] || |items[0]| > MAX_PACKET_SIZE then []
    else if items[0] == [] then Delivered(items[1..])
    else [items[0]] + Delivered(items[1..])
  }

  /** What stays queued: everything from the first response that no buffer can hold. */
  function Left(items: seq<seq<byte>>): seq<seq<byte>> {
    if items == [] || |items[0]| > MAX_PACKET_SIZE then items else Left(items[1..])
  }

  lemma DeliveryStep(items: seq<seq<byte>>)
    ensures items == [] ==> Delivered(items) == [] && Left(items) == []
    ensures items != [] && |items[0]| > MAX_PACKET_SIZE ==>
              Delivered(items) == [] && Left(items) == [items[0]] + items[1..]
    ensures items != [] && |items[0]| <= MAX_PACKET_SIZE ==>
              Left(items) == Left(items[1..])
              && Delivered(items) == (if items[0] == [] then [] else [items[0]]) + Delivered(items[1..])
  {
    if items != [] {
      assert items == [items[0]] + items[1..];
      hide Delivered;
      DeliveredStep(items);
    }
  }

  lemma DeliveredStep(items: seq<seq<byte>>)
    requires items != []
    ensures |items[0]| > MAX_PACKET_SIZE ==> Delivered(items) == []
    ensures |items[0]| <= MAX_PACKET_SIZE ==>
              Delivered(items) == (if items[0] == [] then [] else [items[0]]) + Delivered(items[1..])
  {
    if items[0] == [] {
      assert [] + Delivered(items[1..]) == Delivered(items[1..]);
    }
  }

  /** No slot that is handed out meanwhile is the carrier's own buffer. */
  predicate OutOfReach(pool: Pool, start: nat, n: nat, data: array<byte>) {
    forall k :: 0 <= k < |pool.slots| && HandedOut(start, n, k) ==> pool.slots[k] != data
  }

  lemma OutOfReachNext(pool: Pool, start: nat, n: nat, data: array<byte>)
    requires OutOfReach(pool, start, n + 1, data) && IndexAfter(start, n) < |pool.slots|
    ensures OutOfReach(pool, start, n, data) && pool.slots[IndexAfter(start, n)] != data
  {
    HandedOutNext(start, n);
  }

  /** One delivery on the borrowed carrier; refused when no buffer holds the response. */
  method DeliverOne(packet: CNetPacket, pool: Pool, original: Receiver?, resp: seq<byte>) returns (fits: bool)
    requires pool.Valid()
    modifies packet, pool, pool.slots, original
    ensures pool.Valid() && fits == (|resp| <= MAX_PACKET_SIZE)
    ensures pool.index == if fits then (old(pool.index) + 1) % POOL_SIZE else old(pool.index)
    ensures packet.data == old(packet.data) && packet.size == old(packet.size)
    ensures !fits || pool.slots[old(pool.index)] != packet.data ==> packet.data[..] == old(packet.data[..])
    ensures original != null ==> original.seen == old(original.seen) + if fits then [resp] else []
  {
    var origData, origSize := packet.data, packet.size;
    var poolBuf := pool.AcquirePacketSlot(|resp|);
    if poolBuf == null {
      assert original != null ==> original.seen + [] == original.seen;
      return false;
    }
    CopyIn(poolBuf, 0, resp);
    packet.data := poolBuf;
    packet.size := |resp|;
    if original != null {
      original.Receive(packet);
    }
    packet.data := origData;
    packet.size := origSize;
    return true;
  }

  /**
    * Drains the queue. The carrier gets its data and size back; its bytes are as before unless they lie in one of
    * the buffers handed out meanwhile.
    */
  method TryDeliverQueue(packet: CNetPacket, queue: ResponseQueue, pool: Pool, original: Receiver?)
    requires pool.Valid()
    modifies packet, queue, pool, pool.slots, original
    ensures pool.Valid()
    ensures packet.data == old(packet.data) && packet.size == old(packet.size)
    ensures pool.index == IndexAfter(old(pool.index), |Delivered(old(queue.items))|)
    ensures OutOfReach(pool, old(pool.index), |Delivered(old(queue.items))|, packet.data) ==>
              packet.data[..] == old(packet.data[..])
    ensures queue.items == Left(old(queue.items))
    ensures original != null ==> original.seen == old(original.seen) + Delivered(old(queue.items))
  {
    hide Delivered, Left, OutOfReach;
    ghost var done: seq<seq<byte>> := [];
    ghost var before, start := queue.items, pool.index;
    while true
      invariant pool.Valid() && packet.data == old(packet.data) && packet.size == old(packet.size)
      invariant pool.index == IndexAfter(start, |done|)
      invariant OutOfReach(pool, start, |done|, packet.data) ==> packet.data[..] == old(packet.data[..])
      invariant Left(queue.items) == Left(before) && done + Delivered(queue.items) == Delivered(before)
      invariant original != null ==> original.seen == old(original.seen) + done
      decreases |queue.items|
    {
      DeliveryStep(queue.items);
      if queue.items == [] {
        assert done + [] == done;
        return;
      }
      var resp := queue.items[0];
      queue.items := queue.items[1..];
      if resp == [] {
        assert [] + Delivered(queue.items) == Delivered(queue.items);
        continue;
      }
      if OutOfReach(pool, start, |done| + 1, packet.data) {
        OutOfReachNext(pool, start, |done|, packet.data);
      }
      var fits := DeliverOne(packet, pool, original, resp);
      if !fits {
        queue.items := [resp] + queue.items;
        assert done + [] == done;
        return;
      }
      assert done + ([resp] + Delivered(queue.items)) == done + [resp] + Delivered(queue.items);
      done := done + [resp];
    }
  }

  predicate AllFit(items: seq<seq<byte>>) {
    forall i :: 0 <= i < |items| ==> |items[i]| <= MAX_PACKET_SIZE
  }

  function NonEmpty(items: seq<seq<byte>>): seq<seq<byte>> {
    if items == [] then []
    else if items[0] == [] then NonEmpty(items[1..])
    else [items[0]] + NonEmpty(items[1..])
  }

  lemma AllFitStep(items: seq<seq<byte>>)
    requires items != []
    ensures AllFit(items) <==> |items[0]| <= MAX_PACKET_SIZE && AllFit(items[1..])
  {
    var rest := items[1..];
    assert items == [items[0]] + rest;
    if AllFit(items) {
      forall i | 0 <= i < |rest|
        ensures |rest[i]| <= MAX_PACKET_SIZE
      {
        assert rest[i] == items[i + 1];
      }
    }
  }

  /** The queue empties exactly when every response fits, and then each non-empty one arrives once, in order. */
  lemma {:induction false} AllDeliveredIffAllFit(items: seq<seq<byte>>)
    ensures Left(items) == [] <==> AllFit(items)
    ensures AllFit(items) ==> Delivered(items) == NonEmpty(items)
  {
    hide AllFit;
    if items == [] {
      assert AllFit(items) by { AllFitEmpty(); }
    } else {
      AllFitStep(items);
      AllDeliveredIffAllFit(items[1..]);
    }
  }

  lemma AllFitEmpty()
    ensures AllFit([])
  {
  }

  /** A delivery interrupted by an oversized response loses nothing: what arrived and what stays is the queue. */
  lemma {:induction false} NothingIsLost(items: seq<seq<byte>>)
    ensures Delivered(items) + NonEmpty(Left(items)) == NonEmpty(items)
  {
    if items != [] && |items[0]| <= MAX_PACKET_SIZE {
      NothingIsLost(items[1..]);
    }
  }

  // ---- a blocked queue --------------------------------------------------------------------------------

  /** Once something stays queued, nothing queued behind it is ever delivered. */
  lemma {:induction false} BlockedStays(items: seq<seq<byte>>, more: seq<seq<byte>>)
    requires Left(items) != []
    ensures Left(Left(items) + more) == Left(items) + more && Delivered(Left(items) + more) == []
  {
    if |items[0]| <= MAX_PACKET_SIZE {
      BlockedStays(items[1..], more);
    }
  }

  /** What stays queued after attempts between which responses are queued. */
  function LeftAfter(items: seq<seq<byte>>, pushes: seq<seq<seq<byte>>>): seq<seq<byte>> {
    if pushes == [] then Left(items)
    else Left(LeftAfter(items, pushes[..|pushes| - 1]) + pushes[|pushes| - 1])
  }

  /** What the last of these attempts delivers. */
  function DeliveredLast(items: seq<seq<byte>>, pushes: seq<seq<seq<byte>>>): seq<seq<byte>> {
    if pushes == [] then Delivered(items)
    else Delivered(LeftAfter(items, pushes[..|pushes| - 1]) + pushes[|pushes| - 1])
  }

  function Concatenated(pushes: seq<seq<seq<byte>>>): seq<seq<byte>> {
    if pushes == [] then [] else Concatenated(pushes[..|pushes| - 1]) + pushes[|pushes| - 1]
  }

  /**
    * A response that fits no buffer blocks its queue for good: after it was met, no attempt delivers anything, and
    * everything queued since is still there.
    */
  lemma {:induction false} BlockedForGood(items: seq<seq<byte>>, pushes: seq<seq<seq<byte>>>)
    requires !AllFit(items)
    ensures LeftAfter(items, pushes) == Left(items) + Concatenated(pushes)
    ensures pushes != [] ==> DeliveredLast(items, pushes) == []
  {
    hide Left, Delivered, AllFit;
    AllDeliveredIffAllFit(items);
    if pushes == [] {
      assert Left(items) + [] == Left(items);
    } else {
      var front, last := pushes[..|pushes| - 1], pushes[|pushes| - 1];
      BlockedForGood(items, front);
      assert Left(items) + Concatenated(front) + last == Left(items) + (Concatenated(front) + last);
      BlockedStays(items, Concatenated(front) + last);
    }
  }
}
