/**
 * What both sides make of a ring with arbitrary contents: whatever offsets and size words the other side left there,
 * a packet is taken only if it lies within what the offsets say is there, and inside the data area.
 */
module AnyRing {
  import opened Words
  import opened RingLayout
  import S = SendRing
  import R = ReceiveRing

  /** How far it is from one offset to another around the ring. */
  function Distance(from: nat, to: nat, cap: nat): nat
    requires from < cap && to < cap
  {
    if from <= to then to - from else to + cap - from
  }

  lemma {:induction false} WrapIsDistance(from: nat, to: nat, cap: nat)
    requires ValidCapacity(cap) && from < cap && to < cap
    ensures RingWrap(to - from, cap) == Distance(from, to, cap)
  {
    hide ValidCapacity, Offset;
    RingWrapIsMod(to - from, cap);
    if from <= to {
      ModUnique(to - from, cap, 0, to - from);
    } else {
      ModUnique(to - from, cap, -1, to + cap - from);
    }
  }

  lemma {:induction false} WrapForward(at: nat, len: nat, cap: nat)
    requires ValidCapacity(cap) && at < cap && len <= cap
    ensures RingWrap(at + len, cap) == if at + len < cap then at + len else at + len - cap
  {
    hide ValidCapacity, Offset;
    RingWrapIsMod(at + len, cap);
    if at + len < cap {
      ModUnique(at + len, cap, 0, at + len);
    } else {
      ModUnique(at + len, cap, 1, at + len - cap);
    }
  }

  /** A packet at offset at, with its size word, is no longer than allowed and ends within content bytes. */
  predicate PacketWithin(mem: seq<byte>, at: nat, content: nat)
    requires at + 4 <= |mem|
  {
    var size := Read32(mem, at);
    size <= 0xFFFF && (size + 3) / 4 * 4 + 4 <= content
  }

  lemma {:induction false} SpaceRoundsUp(size: nat)
    ensures PacketSpace(size) == (size + 3) / 4 * 4 + 4
  {
  }

  lemma {:induction false} InDataArea(at: nat, size: nat, cap: nat)
    requires ValidCapacity(cap) && at < cap && at % 4 == 0 && size <= 0xFFFF
    ensures at + PACKET_HEADER + size <= cap + SLACK
  {
    CapacityFacts(cap);
  }

  /** Every outcome of WintunReceivePacket, exactly, on any ring. */
  lemma {:induction false} ReceiveOnAnyRing(cap: nat, c: S.Client, tail: nat, mem: seq<byte>)
    requires ValidCapacity(cap) && |mem| == cap + SLACK
    ensures var (next, r) := S.ClientReceive(cap, c, tail, mem);
      && (r == S.EndOfFile <==> c.head >= cap || tail >= cap)
      && (r == S.NoMoreItems <==> c.head == tail < cap)
      && (c.head < cap && tail < cap && c.head != tail ==>
            var there := PacketWithin(mem, c.head, Distance(c.head, tail, cap));
            && (r == S.InvalidData <==> !there)
            && (there ==>
                  && r == S.Packet(c.head + 4, Read32(mem, c.head)) && next.headRelease == c.headRelease
                  && next.packetsToRelease == c.packetsToRelease + 1 && next.head < cap
                  && Distance(c.head, next.head, cap) == (r.size + 3) / 4 * 4 + 4
                  && (c.head % 4 == 0 ==> r.at + r.size <= |mem|)))
      && (!r.Packet? ==> next == c)
  {
    hide ValidCapacity, Offset, Read32, RingWrap, PacketSpace;
    if c.head < cap && tail < cap && c.head != tail {
      WrapIsDistance(c.head, tail, cap);
      var size := Read32(mem, c.head);
      SpaceRoundsUp(size);
      if PacketWithin(mem, c.head, Distance(c.head, tail, cap)) {
        WrapForward(c.head, PacketSpace(size), cap);
        if c.head % 4 == 0 {
          InDataArea(c.head, size, cap);
        }
      }
    }
  }

  /** Every outcome of the driver's checks, exactly, on any ring. */
  lemma {:induction false} FetchOnAnyRing(cap: nat, ringHead: nat, ringTail: nat, mem: seq<byte>)
    requires ValidCapacity(cap) && |mem| == cap + SLACK && ringHead < cap
    ensures var f := R.FetchPacket(cap, ringHead, ringTail, mem);
      var there := ringTail < cap && PacketWithin(mem, ringHead, Distance(ringHead, ringTail, cap));
      && (f.Stop? <==> !there)
      && (f.Fetched? ==>
            && f.size == Read32(mem, ringHead) && f.next < cap
            && Distance(ringHead, f.next, cap) == (f.size + 3) / 4 * 4 + 4
            && (ringHead % 4 == 0 ==> ringHead + 4 + f.size <= |mem|))
  {
    hide ValidCapacity, Offset, Read32, RingWrap, PacketSpace;
    if ringTail < cap {
      WrapIsDistance(ringHead, ringTail, cap);
      var size := Read32(mem, ringHead);
      SpaceRoundsUp(size);
      if PacketWithin(mem, ringHead, Distance(ringHead, ringTail, cap)) {
        WrapForward(ringHead, PacketSpace(size), cap);
        if ringHead % 4 == 0 {
          InDataArea(ringHead, size, cap);
        }
      }
    }
  }

  /** What is free from the client's tail to the ring's head, less an alignment unit. */
  function Free(tail: nat, head: nat, cap: nat): int
    requires tail < cap && head < cap
  {
    var d := Distance(tail, head, cap);
    if d < ALIGNMENT then d + cap - ALIGNMENT else d - ALIGNMENT
  }

  /** Every outcome of WintunAllocateSendPacket, exactly, on any ring and for any aligned size. */
  lemma {:induction false} AllocateOnAnyRing(cap: nat, c: R.Client, head: nat, aligned: nat)
    requires ValidCapacity(cap)
    ensures var (next, r) := R.AllocateAligned(cap, c, head, aligned);
      && (r == R.EndOfFile <==> c.tail >= cap || head >= cap)
      && (c.tail < cap && head < cap ==>
            && (r == R.BufferOverflow <==> aligned > Free(c.tail, head, cap))
            && (aligned <= Free(c.tail, head, cap) ==>
                  && r == R.Allocated(c.tail + 4) && next.tailRelease == c.tailRelease && next.tail < cap
                  && next.packetsToRelease == c.packetsToRelease + 1
                  && Distance(c.tail, next.tail, cap) == aligned))
      && (!r.Allocated? ==> next == c)
  {
    hide ValidCapacity, Offset, RingWrap;
    if c.tail < cap && head < cap {
      WrapIsFree(c.tail, head, cap);
      CapacityIsLarge(cap);
      if aligned <= Free(c.tail, head, cap) {
        WrapForward(c.tail, aligned, cap);
      }
    }
  }

  lemma {:induction false} CapacityIsLarge(cap: nat)
    requires ValidCapacity(cap)
    ensures cap >= 0x2_0000
  {
  }

  lemma {:induction false} WrapIsFree(tail: nat, head: nat, cap: nat)
    requires ValidCapacity(cap) && tail < cap && head < cap
    ensures RingWrap(head - tail - ALIGNMENT, cap) == Free(tail, head, cap) < cap
  {
    hide ValidCapacity, Offset;
    CapacityIsLarge(cap);
    RingWrapIsMod(head - tail - ALIGNMENT, cap);
    var v := head - tail - ALIGNMENT;
    if v >= 0 {
      ModUnique(v, cap, 0, v);
    } else if v + cap >= 0 {
      ModUnique(v, cap, -1, v + cap);
    } else {
      ModUnique(v, cap, -2, v + 2 * cap);
    }
  }
}
