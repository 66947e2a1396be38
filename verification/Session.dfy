/** The user-mode session object of session.c, over the two rings it shares with the driver. */
module Session {
  import opened Words
  import opened RingLayout
  import S = SendRing
  import R = ReceiveRing
  import opened SharedRing

  class TunSession {
    const capacity: nat
    const sendRing: TunRing
    const receiveRing: TunRing
    var receiveTailMoved: bool
    var sendHead: nat
    var sendHeadRelease: nat
    var sendPacketsToRelease: nat
    var receiveTail: nat
    var receiveTailRelease: nat
    var receivePacketsToRelease: nat

    ghost predicate Valid()
      reads this
    {
      && ValidCapacity(capacity)
      && sendRing != receiveRing && sendRing.data != receiveRing.data
      && sendRing.data.Length == receiveRing.data.Length == capacity + SLACK
      && sendHeadRelease < capacity && receiveTailRelease < capacity
      && receiveTail < capacity
    }

    ghost function Sender(): S.Client
      reads this
    {
      S.Client(sendHead, sendHeadRelease, sendPacketsToRelease)
    }

    ghost function Receiver(): R.Client
      reads this
    {
      R.Client(receiveTail, receiveTailRelease, receivePacketsToRelease)
    }

    /** The send ring's step system when the driver registers this session's rings, with no packet in flight. */
    ghost function SendStart(): S.State
      reads this, sendRing, sendRing.data
    {
      S.State(capacity, sendRing.data[..], sendRing.head, sendRing.tail, sendRing.tail, [], Sender(), 0, 0, 0, S.Live,
              [], 0, 0, 0, [], [])
    }

    ghost function ReceiveStart(): R.State
      reads this, receiveRing, receiveRing.data
    {
      R.State(capacity, receiveRing.data[..], receiveRing.head, receiveRing.tail, receiveRing.alertable,
              receiveTailMoved, false, Receiver(), R.Unlocked, R.AtLoop, receiveRing.head, receiveRing.tail, [], 0,
              None, [], 0, 0, 0, 0, 0, [])
    }

    /** WintunStartSession; the memory comes zeroed. A new session starts both step systems in their initial states. */
    constructor (capacity: nat)
      requires ValidCapacity(capacity)
      ensures Valid() && this.capacity == capacity
      ensures fresh(sendRing) && fresh(sendRing.data) && fresh(receiveRing) && fresh(receiveRing.data)
      ensures Sender() == S.Client(0, 0, 0) && Receiver() == R.Client(0, 0, 0)
      ensures sendRing.head == sendRing.tail == receiveRing.head == receiveRing.tail == 0
      ensures !receiveRing.alertable && !receiveTailMoved
      ensures sendRing.data[..] == receiveRing.data[..] == seq(capacity + SLACK, _ => 0)
      ensures S.Init(SendStart()) && R.Init(ReceiveStart())
    {
      this.capacity := capacity;
      sendRing := new TunRing(capacity);
      receiveRing := new TunRing(capacity);
      receiveTailMoved := false;
      sendHead, sendHeadRelease, sendPacketsToRelease := 0, 0, 0;
      receiveTail, receiveTailRelease, receivePacketsToRelease := 0, 0, 0;
    }

    /** WintunReceivePacket */
    method ReceivePacket() returns (r: S.ReceiveResult)
      requires Valid()
      modifies this`sendHead, this`sendPacketsToRelease
      ensures Valid()
      ensures (Sender(), r) == S.ClientReceive(capacity, old(Sender()), sendRing.tail, sendRing.data[..])
    {
      hide Offset, RingWrap, BitAnd, TunAlign, PacketSpace;
      if sendHead >= capacity {
        return S.EndOfFile;
      }
      var buffTail := sendRing.tail;
      if buffTail >= capacity {
        return S.EndOfFile;
      }
      if sendHead == buffTail {
        return S.NoMoreItems;
      }
      var buffContent := TunRingWrap(buffTail - sendHead, capacity);
      TunRingWrapIsOffset(buffTail - sendHead, capacity);
      if buffContent < PACKET_HEADER {
        return S.InvalidData;
      }
      var size := Read32(sendRing.data[..], sendHead);
      if size > MAX_IP_PACKET {
        return S.InvalidData;
      }
      var alignedPacketSize := TunAlign(PACKET_HEADER + size);
      TunAlignRoundsUp(size);
      if alignedPacketSize > buffContent {
        return S.InvalidData;
      }
      r := S.Packet(sendHead + PACKET_HEADER, size);
      TunRingWrapIsOffset(sendHead + alignedPacketSize, capacity);
      sendHead := TunRingWrap(sendHead + alignedPacketSize, capacity);
      sendPacketsToRelease := sendPacketsToRelease + 1;
    }

    /** The loop of WintunReleaseReceivePacket. */
    method AdvanceHeadRelease()
      requires Valid()
      modifies this`sendHeadRelease, this`sendPacketsToRelease
      ensures Valid()
      ensures Sender() == S.ReleaseFront(capacity, old(Sender()), sendRing.data[..])
    {
      hide Offset, RingWrap, BitAnd, TunAlign, PacketSpace;
      while sendPacketsToRelease > 0
        invariant Valid()
        invariant S.ReleaseFront(capacity, Sender(), sendRing.data[..])
          == S.ReleaseFront(capacity, old(Sender()), sendRing.data[..])
        decreases sendPacketsToRelease
      {
        var size := Read32(sendRing.data[..], sendHeadRelease);
        if size < RELEASE_BIT {
          break;
        }
        var alignedPacketSize := TunAlign(PACKET_HEADER + ClearRelease(size));
        TunAlignRoundsUp(ClearRelease(size));
        TunRingWrapIsOffset(sendHeadRelease + alignedPacketSize, capacity);
        sendHeadRelease := TunRingWrap(sendHeadRelease + alignedPacketSize, capacity);
        sendPacketsToRelease := sendPacketsToRelease - 1;
      }
    }

    /** WintunReleaseReceivePacket; the packet is named by the offset of its data. */
    method ReleaseReceivePacket(packet: nat)
      requires Valid() && PACKET_HEADER <= packet <= sendRing.data.Length
      modifies this`sendHeadRelease, this`sendPacketsToRelease, sendRing`head, sendRing.data
      ensures Valid()
      ensures sendRing.data[..] == S.MarkReleased(old(sendRing.data[..]), packet)
      ensures Sender() == S.ReleaseFront(capacity, old(Sender()), sendRing.data[..])
      ensures sendRing.head == Sender().headRelease
    {
      hide ValidCapacity, S.ReleaseFront, Write32;
      var at := packet - PACKET_HEADER;
      sendRing.WriteULong(at, SetRelease(Read32(sendRing.data[..], at)));
      AdvanceHeadRelease();
      sendRing.head := sendHeadRelease;
    }

    /**
     * WintunAllocateSendPacket. Sizes above the documented maximum are not refused: the aligned size then is what the
     * 32-bit expression makes of them.
     */
    method AllocateSendPacket(packetSize: nat) returns (r: R.AllocateResult)
      requires Valid() && packetSize < TWO32
      modifies this`receiveTail, this`receivePacketsToRelease, receiveRing.data
      ensures Valid()
      ensures var aligned := TunAlign(PACKET_HEADER + packetSize);
        (Receiver(), r) == R.AllocateAligned(capacity, old(Receiver()), receiveRing.head, aligned)
      ensures packetSize <= MAX_IP_PACKET ==>
        (Receiver(), r) == R.ClientAllocate(capacity, old(Receiver()), receiveRing.head, packetSize)
      ensures receiveRing.data[..] ==
        if r.Allocated? then Write32(old(receiveRing.data[..]), r.at - PACKET_HEADER, SetRelease(packetSize))
        else old(receiveRing.data[..])
    {
      hide Offset, RingWrap, BitAnd, TunAlign, PacketSpace;
      if receiveTail >= capacity {
        return R.EndOfFile;
      }
      var alignedPacketSize := TunAlign(PACKET_HEADER + packetSize);
      assert packetSize <= MAX_IP_PACKET ==> alignedPacketSize == PacketSpace(packetSize) by {
        if packetSize <= MAX_IP_PACKET {
          TunAlignRoundsUp(packetSize);
        }
      }
      var buffHead := receiveRing.head;
      if buffHead >= capacity {
        return R.EndOfFile;
      }
      var buffSpace := TunRingWrap(buffHead - receiveTail - ALIGNMENT, capacity);
      TunRingWrapIsOffset(buffHead - receiveTail - ALIGNMENT, capacity);
      if alignedPacketSize > buffSpace {
        return R.BufferOverflow;
      }
      receiveRing.WriteULong(receiveTail, SetRelease(packetSize));
      r := R.Allocated(receiveTail + PACKET_HEADER);
      TunRingWrapIsOffset(receiveTail + alignedPacketSize, capacity);
      receiveTail := TunRingWrap(receiveTail + alignedPacketSize, capacity);
      receivePacketsToRelease := receivePacketsToRelease + 1;
    }

    /** The loop of WintunSendPacket. */
    method AdvanceTailRelease()
      requires Valid()
      modifies this`receiveTailRelease, this`receivePacketsToRelease
      ensures Valid()
      ensures Receiver() == R.SendFront(capacity, old(Receiver()), receiveRing.data[..])
    {
      hide Offset, RingWrap, BitAnd, TunAlign, PacketSpace;
      while receivePacketsToRelease > 0
        invariant Valid()
        invariant R.SendFront(capacity, Receiver(), receiveRing.data[..])
          == R.SendFront(capacity, old(Receiver()), receiveRing.data[..])
        decreases receivePacketsToRelease
      {
        var size := Read32(receiveRing.data[..], receiveTailRelease);
        if size >= RELEASE_BIT {
          break;
        }
        var alignedPacketSize := TunAlign(PACKET_HEADER + size);
        TunAlignRoundsUp(size);
        TunRingWrapIsOffset(receiveTailRelease + alignedPacketSize, capacity);
        receiveTailRelease := TunRingWrap(receiveTailRelease + alignedPacketSize, capacity);
        receivePacketsToRelease := receivePacketsToRelease - 1;
      }
    }

    /** WintunSendPacket; the packet is named by the offset of its data. */
    method SendPacket(packet: nat)
      requires Valid() && PACKET_HEADER <= packet <= receiveRing.data.Length
      modifies this`receiveTailRelease, this`receivePacketsToRelease, this`receiveTailMoved, receiveRing`tail,
          receiveRing.data
      ensures Valid()
      ensures receiveRing.data[..] == R.MarkSent(old(receiveRing.data[..]), packet)
      ensures Receiver() == R.SendFront(capacity, old(Receiver()), receiveRing.data[..])
      ensures receiveRing.tail == Receiver().tailRelease
      ensures receiveTailMoved <==>
        old(receiveTailMoved) || (receiveRing.tail != old(receiveRing.tail) && receiveRing.alertable)
    {
      hide ValidCapacity, R.SendFront, Write32;
      var at := packet - PACKET_HEADER;
      receiveRing.WriteULong(at, ClearRelease(Read32(receiveRing.data[..], at)));
      AdvanceTailRelease();
      if receiveRing.tail != receiveTailRelease {
        receiveRing.tail := receiveTailRelease;
        if receiveRing.alertable {
          receiveTailMoved := true;
        }
      }
    }
  }
}
