/**
 * The receive ring: the client allocates, fills and sends packets, the driver's thread consumes them and NDIS returns
 * them. The accesses of the wake-up handshake are separate steps, and so are the two halves of a return: unlinking a
 * buffer list, which sets the Empty event with the last one, and writing the ring's head. Other lock-held regions are
 * one step each.
 */
module ReceiveRing {
  import opened Words
  import opened RingLayout

  // ---- The client's half, in the terms of session.c ----

  datatype Client = Client(tail: nat, tailRelease: nat, packetsToRelease: nat)

  datatype AllocateResult = EndOfFile | BufferOverflow | Allocated(at: nat)

  /** Allocating the given aligned number of bytes. */
  function AllocateAligned(cap: nat, c: Client, head: nat, aligned: nat): (Client, AllocateResult)
    requires cap > 0
  {
    if c.tail >= cap then (c, EndOfFile)
    else if head >= cap then (c, EndOfFile)
    else if aligned > RingWrap(head - c.tail - ALIGNMENT, cap) then (c, BufferOverflow)
    else (c.(tail := RingWrap(c.tail + aligned, cap), packetsToRelease := c.packetsToRelease + 1),
          Allocated(c.tail + PACKET_HEADER))
  }

  function ClientAllocate(cap: nat, c: Client, head: nat, size: nat): (Client, AllocateResult)
    requires cap > 0
  {
    AllocateAligned(cap, c, head, PacketSpace(size))
  }

  /** Moves TailRelease over the packets at the front whose release bit is clear. */
  function SendFront(cap: nat, c: Client, mem: seq<byte>): (c': Client)
    requires cap > 0 && |mem| == cap + SLACK && c.tailRelease < cap
    ensures c'.tail == c.tail && c'.tailRelease < cap && c'.packetsToRelease <= c.packetsToRelease
    decreases c.packetsToRelease
  {
    if c.packetsToRelease == 0 then c
    else
      var word := Read32(mem, c.tailRelease);
      if word >= RELEASE_BIT then c
      else
        SendFront(cap, c.(tailRelease := RingWrap(c.tailRelease + PacketSpace(word), cap),
                          packetsToRelease := c.packetsToRelease - 1), mem)
  }

  function MarkSent(mem: seq<byte>, at: nat): (m: seq<byte>)
    requires PACKET_HEADER <= at <= |mem|
    ensures |m| == |mem|
  {
    Write32(mem, at - PACKET_HEADER, ClearRelease(Read32(mem, at - PACKET_HEADER)))
  }

  // ---- The driver's half, in the terms of TunProcessReceiveData ----

  datatype Fetch = Stop | Fetched(size: nat, next: nat)

  /** The checks on the packet at ringHead, and where the next one starts. */
  function FetchPacket(cap: nat, ringHead: nat, ringTail: nat, mem: seq<byte>): Fetch
    requires cap > 0 && |mem| == cap + SLACK && ringHead < cap
  {
    if ringTail >= cap then Stop
    else
      var content := RingWrap(ringTail - ringHead, cap);
      if content < PACKET_HEADER then Stop
      else
        var size := Read32(mem, ringHead);
        if size > MAX_IP_PACKET then Stop
        else if PacketSpace(size) > content then Stop
        else Fetched(size, RingWrap(ringHead + PacketSpace(size), cap))
  }

  /** What the driver passes on to the network stack: long enough for the IP version of its first byte. */
  predicate IsIp(packet: seq<byte>) {
    (|packet| >= 20 && packet[0] / 16 == 4) || (|packet| >= 40 && packet[0] / 16 == 6)
  }

  /**
   * A packet lent to NDIS: the offset behind it, whether it was returned, and (history) the slots up to and with it.
   */
  datatype Nbl = Nbl(offset: nat, completed: bool, upTo: nat)

  /** Where a client thread holding the receive lock stands in WintunSendPacket. */
  datatype ClientPc = Unlocked | TailToWrite | AlertableToRead | EventToSet

  datatype DriverPc =
    | AtLoop
    | ReadingTail
    | Spinning
    | SettingAlertable
    | Rechecking
    | Blocked
    | ClearingAfterWait
    | ClearingAlertable
    | ClearingEvent
    | HavePacket
    | Classifying
    | AwaitingEmpty
    | WritingHead
    | Draining
    | Invalidating
    | Finished

  /**
   * The event Empty of the active list is set exactly when the list is empty, since both change under the same lock.
   * popping counts the returner threads between marking a buffer list completed and leaving the pop loop; unlinked is
   * the list that one of them, holding the lock, has taken off the active list and whose offset it has yet to write to
   * the ring's head. The fields from log on are history: freed is the position that the offset last written to the
   * ring's head stands for; packets up to popped are neither lent nor to be handled any more, up to consumed have been
   * fetched, up to published are before the ring's tail, up to released before TailRelease.
   */
  datatype State = State(
    cap: nat,
    mem: seq<byte>,
    head: nat,
    tail: nat,
    alertable: bool,
    tailMoved: bool,
    disconnected: bool,
    client: Client,
    clientPc: ClientPc,
    driverPc: DriverPc,
    ringHead: nat,
    ringTail: nat,
    active: seq<Nbl>,
    popping: nat,
    unlinked: Option<Nbl>,
    log: seq<Slot>,
    freed: nat,
    popped: nat,
    consumed: nat,
    published: nat,
    released: nat,
    delivered: seq<seq<byte>>
  )

  ghost predicate Init(s: State) {
    && ValidCapacity(s.cap)
    && |s.mem| == s.cap + SLACK
    && s.head == s.tail == 0
    && !s.alertable && !s.tailMoved && !s.disconnected
    && s.client == Client(0, 0, 0)
    && s.clientPc == Unlocked && s.driverPc == AtLoop
    && s.ringHead == s.ringTail == 0
    && s.active == [] && s.popping == 0 && s.unlinked == None
    && s.log == [] && s.freed == s.popped == s.consumed == s.published == s.released == 0
    && s.delivered == []
  }

  datatype Event =
    | Allocate(size: nat)
    | Fill(slot: nat, bytes: seq<byte>)
    | Send(slot: nat)
    | WriteTail
    | ReadAlertable
    | SignalTailMoved
    | Disconnect
    | CheckDisconnected
    | ReadTail
    | SpinRead
    | SpinEnds
    | SetAlertable
    | Recheck
    | WakeDisconnected
    | WakeTailMoved
    | ClearAlertable
    | ClearTailMoved
    | FetchNext
    | Indicate
    | Skip
    | SeeEmpty
    | WriteHead
    | WriteMaxHead
    | ReturnNbl(nbl: nat)
    | Unlink
    | WritePopped
    | PopDone

  /** Slot i is allocated to the client and not sent yet. */
  predicate Unsent(s: State, i: nat) {
    i < |s.log| && s.log[i].marked
  }

  ghost predicate WellSized(s: State) {
    && ValidCapacity(s.cap) && |s.mem| == s.cap + SLACK
    && s.client.tail < s.cap && s.client.tailRelease < s.cap && s.ringHead < s.cap
  }

  /** The packet the driver fetched last; classifying it reads the same bytes again. */
  function FetchedBytes(s: State): seq<byte> {
    if s.delivered == [] then [] else s.delivered[|s.delivered| - 1]
  }

  /** When a step can happen; the client keeps to packet sizes up to 0xFFFF and sends each packet once. */
  ghost predicate Enabled(s: State, e: Event)
    requires WellSized(s)
  {
    match e
    case Allocate(size) => s.clientPc == Unlocked && size <= MAX_IP_PACKET && s.client.tail + MAX_PACKET <= |s.mem|
    case Fill(i, bytes) =>
      && Unsent(s, i) && |bytes| == |s.log[i].data|
      && Offset(s.log[i].pos, s.cap) + PACKET_HEADER + |bytes| <= |s.mem|
    case Send(i) => s.clientPc == Unlocked && Unsent(s, i)
    case WriteTail => s.clientPc == TailToWrite
    case ReadAlertable => s.clientPc == AlertableToRead
    case SignalTailMoved => s.clientPc == EventToSet
    case Disconnect => true
    case CheckDisconnected => s.driverPc == AtLoop
    case ReadTail => s.driverPc == ReadingTail
    case SpinRead => s.driverPc == Spinning
    case SpinEnds => s.driverPc == Spinning
    case SetAlertable => s.driverPc == SettingAlertable
    case Recheck => s.driverPc == Rechecking
    case WakeDisconnected => s.driverPc == Blocked && s.disconnected
    case WakeTailMoved => s.driverPc == Blocked && s.tailMoved && !s.disconnected
    case ClearAlertable => s.driverPc in {ClearingAfterWait, ClearingAlertable}
    case ClearTailMoved => s.driverPc == ClearingEvent
    case FetchNext => s.driverPc == HavePacket
    case Indicate => s.driverPc == Classifying && s.unlinked.None? && IsIp(FetchedBytes(s))
    case Skip => s.driverPc == Classifying  // not IP, out of memory, or the miniport is paused
    case SeeEmpty => s.driverPc in {AwaitingEmpty, Draining} && s.active == []
    case WriteHead => s.driverPc == WritingHead
    case WriteMaxHead => s.driverPc == Invalidating
    case ReturnNbl(k) => k < |s.active| && !s.active[k].completed
    case Unlink => s.popping > 0 && s.unlinked.None? && s.active != [] && s.active[0].completed
    case WritePopped => s.unlinked.Some?
    case PopDone => s.popping > 0 && s.unlinked.None? && !(s.active != [] && s.active[0].completed)
  }

  ghost function Step(s: State, e: Event): State
    requires WellSized(s) && Enabled(s, e)
  {
    match e
    case Allocate(size) => AllocateStep(s, size)
    case Fill(i, bytes) => FillStep(s, i, bytes)
    case Send(i) => SendStep(s, i)
    case WriteTail => s.(tail := s.client.tailRelease, published := s.released, clientPc := AlertableToRead)
    case ReadAlertable => s.(clientPc := if s.alertable then EventToSet else Unlocked)
    case SignalTailMoved => s.(tailMoved := true, clientPc := Unlocked)
    case Disconnect => s.(disconnected := true)
    case CheckDisconnected => s.(driverPc := if s.disconnected then Draining else ReadingTail)
    case ReadTail => s.(ringTail := s.tail, driverPc := if s.tail == s.ringHead then Spinning else HavePacket)
    case SpinRead => s.(ringTail := s.tail, driverPc := if s.tail == s.ringHead then Spinning else HavePacket)
    case SpinEnds => s.(driverPc := SettingAlertable)
    case SetAlertable => s.(alertable := true, driverPc := Rechecking)
    case Recheck => s.(ringTail := s.tail, driverPc := if s.tail == s.ringHead then Blocked else ClearingAlertable)
    case WakeDisconnected => s.(driverPc := ClearingAfterWait)
    case WakeTailMoved => s.(tailMoved := false, driverPc := ClearingAfterWait)
    case ClearAlertable =>
      s.(alertable := false, driverPc := if s.driverPc == ClearingAfterWait then AtLoop else ClearingEvent)
    case ClearTailMoved => s.(tailMoved := false, driverPc := HavePacket)
    case FetchNext => FetchStep(s)
    case Indicate => s.(active := s.active + [Nbl(s.ringHead, false, s.consumed)], driverPc := AtLoop)
    case Skip => s.(driverPc := AwaitingEmpty)
    case SeeEmpty => s.(driverPc := if s.driverPc == AwaitingEmpty then WritingHead else Invalidating)
    case WriteHead => WriteHeadStep(s)
    case WriteMaxHead => s.(head := MAXULONG, driverPc := Finished)
    case ReturnNbl(k) => s.(active := s.active[k := s.active[k].(completed := true)], popping := s.popping + 1)
    case Unlink => UnlinkStep(s)
    case WritePopped => WritePoppedStep(s)
    case PopDone => s.(popping := s.popping - 1)
  }

  /** WintunAllocateSendPacket; the new packet holds whatever bytes the memory had. */
  ghost function AllocateStep(s: State, size: nat): State
    requires WellSized(s) && size <= MAX_IP_PACKET && s.client.tail + MAX_PACKET <= |s.mem|
  {
    var (c, r) := ClientAllocate(s.cap, s.client, s.head, size);
    if r.Allocated? then
      var mem := Write32(s.mem, s.client.tail, size + RELEASE_BIT);
      var at := s.client.tail + PACKET_HEADER;
      s.(mem := mem, client := c, log := s.log + [Slot(Pos(s.log, |s.log|), mem[at..at + size], true, true)])
    else s
  }

  ghost function FillStep(s: State, i: nat, bytes: seq<byte>): State
    requires i < |s.log| && |bytes| == |s.log[i].data| && s.cap > 0
    requires Offset(s.log[i].pos, s.cap) + PACKET_HEADER + |bytes| <= |s.mem|
  {
    s.(mem := Splice(s.mem, Offset(s.log[i].pos, s.cap) + PACKET_HEADER, bytes),
        log := s.log[i := s.log[i].(data := bytes)])
  }

  /** The locked part of WintunSendPacket up to the comparison with the ring's tail. */
  ghost function SendStep(s: State, i: nat): State
    requires WellSized(s) && i < |s.log|
  {
    var mem := MarkSent(s.mem, Offset(s.log[i].pos, s.cap) + PACKET_HEADER);
    var client := SendFront(s.cap, s.client, mem);
    s.(mem := mem, client := client,
       log := s.log[i := s.log[i].(marked := false)],
       released := s.released + (s.client.packetsToRelease - client.packetsToRelease),
       clientPc := if s.tail != client.tailRelease then TailToWrite else Unlocked)
  }

  /** Validating and fetching the packet at the driver's head; delivered records the bytes found in memory. */
  ghost function FetchStep(s: State): State
    requires WellSized(s)
  {
    match FetchPacket(s.cap, s.ringHead, s.ringTail, s.mem)
    case Stop => s.(driverPc := Draining)
    case Fetched(size, next) =>
      var at := s.ringHead + PACKET_HEADER;
      if at + size <= |s.mem| then
        s.(ringHead := next, consumed := s.consumed + 1, driverPc := Classifying,
           delivered := s.delivered + [s.mem[at..at + size]])
      else s
  }

  /** The first half of a return, under the lock: the front list comes off, and with the last one Empty is set. */
  function UnlinkStep(s: State): State
    requires s.active != []
  {
    s.(active := s.active[1..], unlinked := Some(s.active[0]), popped := s.active[0].upTo)
  }

  ghost function Position(log: seq<Slot>, i: nat): nat {
    if i <= |log| then Pos(log, i) else 0
  }

  /**
   * The second half, under the same lock: the ring's head moves behind that list's packet. To whoever reads the head it
   * stands for the last position at this offset that has been given up.
   */
  ghost function WritePoppedStep(s: State): State
    requires s.unlinked.Some? && s.cap > 0
  {
    var offset := s.unlinked.value.offset;
    s.(head := offset, freed := LastAt(Position(s.log, s.popped), offset, s.cap), unlinked := None)
  }

  /** The driver, having skipped a packet and seen the active list empty, moves the ring's head behind it. */
  ghost function WriteHeadStep(s: State): State {
    s.(head := s.ringHead, freed := Position(s.log, s.consumed), popped := s.consumed, driverPc := AtLoop)
  }
}
