/** The driver's receive side as its entry points run it: fetching from the ring and TunReturnNetBufferLists. */
module DriverReceive {
  import opened Words
  import opened RingLayout
  import opened SharedRing
  import opened IpClass
  import R = ReceiveRing

  /** A buffer list on the active list: who it is, the ring offset behind its packet, and whether it was returned. */
  datatype Entry = Entry(id: nat, offset: nat, completed: bool)

  function Mark(active: seq<Entry>, ids: set<nat>): (marked: seq<Entry>)
    ensures |marked| == |active|
    ensures forall k :: 0 <= k < |active| ==>
                          marked[k] == active[k].(completed := active[k].completed || active[k].id in ids)
  {
    if active == [] then []
    else [active[0].(completed := active[0].completed || active[0].id in ids)] + Mark(active[1..], ids)
  }

  /** Popping the returned lists at the front, moving the ring's head behind each. */
  function PopFront(active: seq<Entry>, head: nat): (seq<Entry>, nat) {
    if active != [] && active[0].completed then PopFront(active[1..], active[0].offset) else (active, head)
  }

  /** Returning lists one after the other, popping after each. */
  function Returned(active: seq<Entry>, head: nat, ids: seq<nat>): (seq<Entry>, nat)
    decreases |ids|
  {
    if ids == [] then (active, head)
    else
      var (a, h) := Returned(active, head, ids[..|ids| - 1]);
      PopFront(Mark(a, {ids[|ids| - 1]}), h)
  }

  function Elements(ids: seq<nat>): set<nat> {
    set id | id in ids
  }

  /** Popping early makes no difference to what popping late gives. */
  lemma {:induction false} PopThenMark(active: seq<Entry>, head: nat, ids: set<nat>)
    ensures var (a, h) := PopFront(active, head); PopFront(Mark(a, ids), h) == PopFront(Mark(active, ids), head)
    decreases |active|
  {
    if active != [] && active[0].completed {
      PopThenMark(active[1..], active[0].offset, ids);
      assert Mark(active, ids)[1..] == Mark(active[1..], ids);
    }
  }

  lemma {:induction false} MarkTwice(active: seq<Entry>, ids: set<nat>, more: set<nat>)
    ensures Mark(Mark(active, ids), more) == Mark(active, ids + more)
  {
  }

  /**
   * Buffer lists may be returned in any order: what is left on the list and where the ring's head ends depends only
   * on which lists have been returned.
   */
  lemma {:induction false} ReturnOrderIsIrrelevant(active: seq<Entry>, head: nat, ids: seq<nat>)
    requires PopFront(active, head) == (active, head)
    ensures Returned(active, head, ids) == PopFront(Mark(active, Elements(ids)), head)
    decreases |ids|
  {
    if ids == [] {
      assert Mark(active, {}) == active;
      assert Elements(ids) == {};
    } else {
      var front, last := ids[..|ids| - 1], ids[|ids| - 1];
      ReturnOrderIsIrrelevant(active, head, front);
      PopThenMark(Mark(active, Elements(front)), head, {last});
      MarkTwice(active, Elements(front), {last});
      assert ids == front + [last];
      assert Elements(ids) == Elements(front) + {last};
    }
  }

  function Which(ok: seq<bool>, b: bool): set<nat> {
    set i | 0 <= i < |ok| && ok[i] == b
  }

  lemma {:induction false} OneMore(ok: seq<bool>, i: nat)
    requires i < |ok|
    ensures |Which(ok[..i + 1], ok[i])| == |Which(ok[..i], ok[i])| + 1
    ensures |Which(ok[..i + 1], !ok[i])| == |Which(ok[..i], !ok[i])|
  {
    assert ok[..i + 1] == ok[..i] + [ok[i]];
    assert Which(ok[..i + 1], ok[i]) == Which(ok[..i], ok[i]) + {i};
    assert Which(ok[..i + 1], !ok[i]) == Which(ok[..i], !ok[i]);
  }

  class TunReceiveDevice {
    const capacity: nat
    const ring: TunRing
    var active: seq<Entry>
    var empty: bool
    var received: nat
    var errors: nat

    ghost predicate Valid()
      reads this
    {
      && ValidCapacity(capacity) && ring.data.Length == capacity + SLACK
      && (empty <==> active == [])
    }

    constructor (ring: TunRing, capacity: nat)
      requires ValidCapacity(capacity) && ring.data.Length == capacity + SLACK
      ensures Valid() && this.ring == ring && this.capacity == capacity && active == []
    {
      this.ring, this.capacity := ring, capacity;
      active, empty, received, errors := [], true, 0, 0;
    }

    /** The part of TunReturnNetBufferLists that marks one list and pops the front of the active list. */
    method ReturnOne(id: nat)
      requires Valid()
      modifies this`active, this`empty, ring`head
      ensures Valid()
      ensures (active, ring.head) == PopFront(Mark(old(active), {id}), old(ring.head))
    {
      active := Mark(active, {id});
      while active != [] && active[0].completed
        invariant Valid()
        invariant PopFront(active, ring.head) == PopFront(Mark(old(active), {id}), old(ring.head))
        decreases |active|
      {
        var popped := active[0];
        active := active[1..];
        if active == [] {
          empty := true;
        }
        ring.head := popped.offset;
      }
    }

    /** TunReturnNetBufferLists, run without interruption; ok tells which lists carry a success status. */
    method ReturnNetBufferLists(ids: seq<nat>, ok: seq<bool>)
      requires Valid() && |ok| == |ids| && (active != [] ==> !active[0].completed)
      modifies this`active, this`empty, this`received, this`errors, ring`head
      ensures Valid()
      ensures (active, ring.head) == Returned(old(active), old(ring.head), ids)
      ensures (active, ring.head) == PopFront(Mark(old(active), Elements(ids)), old(ring.head))
      ensures received == old(received) + |set i | 0 <= i < |ok| && ok[i]|
      ensures errors == old(errors) + |set i | 0 <= i < |ok| && !ok[i]|
      ensures active != [] ==> !active[0].completed
    {
      ReturnOrderIsIrrelevant(active, ring.head, ids);
      for i := 0 to |ids|
        invariant Valid()
        invariant (active, ring.head) == Returned(old(active), old(ring.head), ids[..i])
        invariant active != [] ==> !active[0].completed
        invariant received == old(received) + |Which(ok[..i], true)|
        invariant errors == old(errors) + |Which(ok[..i], false)|
      {
        OneMore(ok, i);
        if ok[i] {
          received := received + 1;
        } else {
          errors := errors + 1;
        }
        assert ids[..i + 1][..i] == ids[..i];
        PoppedFrontIsHeld(Mark(active, {ids[i]}), ring.head);
        ReturnOne(ids[i]);
      }
      assert ids[..|ids|] == ids && ok[..|ok|] == ok;
      assert Which(ok, true) == set i | 0 <= i < |ok| && ok[i];
      assert Which(ok, false) == set i | 0 <= i < |ok| && !ok[i];
    }

    /** The checks of TunProcessReceiveData on the packet at the driver's head. */
    method FetchPacket(ringHead: nat, ringTail: nat) returns (f: R.Fetch)
      requires Valid() && ringHead < capacity
      ensures f == R.FetchPacket(capacity, ringHead, ringTail, ring.data[..])
    {
      hide Offset, RingWrap, BitAnd, TunAlign, PacketSpace;
      if ringTail >= capacity {
        return R.Stop;
      }
      var ringContent := TunRingWrap(ringTail - ringHead, capacity);
      TunRingWrapIsOffset(ringTail - ringHead, capacity);
      if ringContent < PACKET_HEADER {
        return R.Stop;
      }
      var packetSize := Read32(ring.data[..], ringHead);
      if packetSize > MAX_IP_PACKET {
        return R.Stop;
      }
      var alignedPacketSize := TunAlign(PACKET_HEADER + packetSize);
      TunAlignRoundsUp(packetSize);
      if alignedPacketSize > ringContent {
        return R.Stop;
      }
      TunRingWrapIsOffset(ringHead + alignedPacketSize, capacity);
      return R.Fetched(packetSize, TunRingWrap(ringHead + alignedPacketSize, capacity));
    }

    /** Which header the packet at ringHead starts with: the flags and the frame type of its buffer list, if any. */
    method Classify(ringHead: nat, packetSize: nat) returns (class_: Option<(NblFlags, FrameType)>)
      requires ringHead + PACKET_HEADER + packetSize <= ring.data.Length
      ensures var packet := ring.data[..][ringHead + PACKET_HEADER..ringHead + PACKET_HEADER + packetSize];
        && (class_ == Some((IsIpv4, EtherIpv4)) <==> StartsWith4(packet))
        && (class_ == Some((IsIpv6, EtherIpv6)) <==> StartsWith6(packet))
        && (class_ == None <==> !StartsWith4(packet) && !StartsWith6(packet))
        && (class_.Some? <==> R.IsIp(packet))
    {
      hide StartsWith4, StartsWith6;
      var at := ringHead + PACKET_HEADER;
      ghost var packet := ring.data[..][at..at + packetSize];
      VersionsExactly(packet);
      if packetSize >= 20 && ring.data[at] / 16 == 4 {
        class_ := Some((IsIpv4, EtherIpv4));
      } else if packetSize >= 40 && ring.data[at] / 16 == 6 {
        class_ := Some((IsIpv6, EtherIpv6));
      } else {
        class_ := None;
      }
    }

    /** Lending a fetched packet to NDIS: the lock-held region that appends to the active list. */
    method Lend(id: nat, ringHead: nat)
      requires Valid()
      modifies this`active, this`empty
      ensures Valid() && active == old(active) + [Entry(id, ringHead, false)]
    {
      if active == [] {
        empty := false;
      }
      active := active + [Entry(id, ringHead, false)];
    }
  }

  lemma {:induction false} PoppedFrontIsHeld(active: seq<Entry>, head: nat)
    ensures var (a, h) := PopFront(active, head); a != [] ==> !a[0].completed
    decreases |active|
  {
    if active != [] && active[0].completed {
      PoppedFrontIsHeld(active[1..], active[0].offset);
    }
  }
}
