/**
 * The send ring: the driver reserves, fills and publishes packets, the client takes and releases them. Every
 * lock-held region is one step; filling a reserved packet happens outside the locks and is a step of its own. The
 * disconnect barrier around the ring is part of the system.
 */
module SendRing {
  import opened Words
  import opened RingLayout

  // ---- The driver's input ----

  /** A network buffer: its length, and its bytes unless the data cannot be mapped. */
  datatype NetBuffer = NetBuffer(length: nat, bytes: Option<seq<byte>>) {
    predicate WellFormed() {
      bytes.Some? ==> |bytes.value| == length
    }

    predicate Oversize() {
      length > MAX_IP_PACKET
    }

    /** What the ring gets to hold for this buffer: its bytes, or a zero packet. */
    function Content(): (c: seq<byte>)
      ensures WellFormed() ==> |c| == length
    {
      if bytes.Some? then bytes.value else seq(length, _ => 0)
    }
  }

  predicate WellFormed(nbs: seq<NetBuffer>) {
    forall i :: 0 <= i < |nbs| ==> nbs[i].WellFormed()
  }

  /** Ring space for all packets that are not oversize, without overflow. */
  function Space(nbs: seq<NetBuffer>): nat {
    if nbs == [] then 0
    else (if nbs[0].Oversize() then 0 else PacketSpace(nbs[0].length)) + Space(nbs[1..])
  }

  /** Contents of the packets that are not oversize, in order. */
  function Contents(nbs: seq<NetBuffer>): seq<seq<byte>> {
    if nbs == [] then []
    else (if nbs[0].Oversize() then [] else [nbs[0].Content()]) + Contents(nbs[1..])
  }

  // ---- The client's half, in the terms of session.c ----

  datatype Client = Client(head: nat, headRelease: nat, packetsToRelease: nat)

  datatype ReceiveResult = EndOfFile | NoMoreItems | InvalidData | Packet(at: nat, size: nat)

  function ClientReceive(cap: nat, c: Client, tail: nat, mem: seq<byte>): (Client, ReceiveResult)
    requires ValidCapacity(cap) && |mem| == cap + SLACK
  {
    if c.head >= cap then (c, EndOfFile)
    else if tail >= cap then (c, EndOfFile)
    else if c.head == tail then (c, NoMoreItems)
    else
      var content := RingWrap(tail - c.head, cap);
      if content < PACKET_HEADER then (c, InvalidData)
      else
        var size := Read32(mem, c.head);
        if size > MAX_IP_PACKET then (c, InvalidData)
        else if PacketSpace(size) > content then (c, InvalidData)
        else
          (c.(head := RingWrap(c.head + PacketSpace(size), cap), packetsToRelease := c.packetsToRelease + 1),
           Packet(c.head + PACKET_HEADER, size))
  }

  /** Moves HeadRelease over the packets at the front that carry the release bit. */
  function ReleaseFront(cap: nat, c: Client, mem: seq<byte>): (c': Client)
    requires ValidCapacity(cap) && |mem| == cap + SLACK && c.headRelease < cap
    ensures c'.head == c.head && c'.headRelease < cap && c'.packetsToRelease <= c.packetsToRelease
    decreases c.packetsToRelease
  {
    if c.packetsToRelease == 0 then c
    else
      var word := Read32(mem, c.headRelease);
      if word < RELEASE_BIT then c
      else
        ReleaseFront(cap, c.(headRelease := RingWrap(c.headRelease + PacketSpace(ClearRelease(word)), cap),
                             packetsToRelease := c.packetsToRelease - 1), mem)
  }

  function MarkReleased(mem: seq<byte>, at: nat): (m: seq<byte>)
    requires PACKET_HEADER <= at <= |mem|
    ensures |m| == |mem|
  {
    Write32(mem, at - PACKET_HEADER, SetRelease(Read32(mem, at - PACKET_HEADER)))
  }

  // ---- The driver's half ----

  function RingSpace(head: nat, ringTail: nat, cap: nat): nat
    requires ValidCapacity(cap)
  {
    RingWrap(head - ringTail - ALIGNMENT, cap)
  }

  function CopyPacket(mem: seq<byte>, cursor: nat, nb: NetBuffer): (m: seq<byte>)
    requires nb.WellFormed() && !nb.Oversize() && cursor + PACKET_HEADER + nb.length <= |mem|
    ensures |m| == |mem|
  {
    Splice(Write32(mem, cursor, nb.length), cursor + PACKET_HEADER, nb.Content())
  }

  /**
   * A chain of net buffer lists on the active list, with the copy loop's next buffer and ring cursor. The last three
   * fields are history: the reserved slots are lo..hi, of which lo..done have been copied.
   */
  datatype Chain = Chain(nbs: seq<NetBuffer>, next: nat, cursor: nat, end: nat, completed: bool,
                         lo: nat, hi: nat, done: nat)

  /** Where TunUnregisterBuffers stands; Replaced is a later registration, which uses another ring. */
  datatype Phase = Live | Disconnecting | Drained | Closed | Replaced

  /**
   * entered, inside and publishers count the threads in TunSendNetBufferLists that hold the transition lock shared:
   * before the Disconnected test, between that and the reservation, and after marking their chain completed. Every
   * chain that is not completed belongs to one more such thread, which is copying. The fields from log on are history.
   */
  datatype State = State(
    cap: nat,
    mem: seq<byte>,
    head: nat,
    tail: nat,
    ringTail: nat,
    active: seq<Chain>,
    client: Client,
    entered: nat,
    inside: nat,
    publishers: nat,
    phase: Phase,
    log: seq<Slot>,
    published: nat,
    taken: nat,
    freed: nat,
    accepted: seq<seq<byte>>,
    received: seq<seq<byte>>
  ) {
    predicate Disconnected() {
      phase in {Disconnecting, Drained, Closed}
    }
  }

  ghost predicate Init(s: State) {
    && ValidCapacity(s.cap)
    && |s.mem| == s.cap + SLACK
    && s.head == s.tail == s.ringTail == 0
    && s.active == []
    && s.client == Client(0, 0, 0)
    && s.entered == s.inside == s.publishers == 0
    && s.phase == Live
    && s.log == [] && s.published == s.taken == s.freed == 0
    && s.accepted == [] && s.received == []
  }

  datatype Event =
    | SenderEnters
    | SenderTurnedAway
    | SenderAdmitted
    | ReserveFails(short: seq<NetBuffer>)
    | Reserve(nbs: seq<NetBuffer>)
    | CopyNext(chain: nat)
    | MarkCompleted(chain: nat)
    | PublishNext
    | PublishDone
    | ClientTakes
    | ClientWrites(slot: nat, bytes: seq<byte>)
    | ClientReleases(slot: nat)
    | SetDisconnected
    | PassBarrier
    | InvalidateTail
    | Reregister

  ghost predicate Room(s: State, nbs: seq<NetBuffer>)
    requires ValidCapacity(s.cap)
  {
    s.head < s.cap && RingSpace(s.head, s.ringTail, s.cap) >= U32(Space(nbs))
  }

  /** Slot i has been handed to the client and not been released. */
  predicate Outstanding(s: State, i: nat) {
    s.freed <= i < s.taken && i < |s.log| && !s.log[i].marked
  }

  /** When a step can happen. The client's contract: it touches only packets it holds, releasing each once. */
  ghost predicate Enabled(s: State, e: Event)
    requires ValidCapacity(s.cap) && |s.mem| == s.cap + SLACK
  {
    match e
    case SenderEnters => true
    case SenderTurnedAway => s.entered > 0  // disconnected, or the miniport is paused
    case SenderAdmitted => s.entered > 0 && !s.Disconnected()
    case ReserveFails(nbs) => s.inside > 0 && !Room(s, nbs)
    case Reserve(nbs) => s.inside > 0 && WellFormed(nbs) && Space(nbs) < TWO32 && Room(s, nbs)
    case CopyNext(k) =>
      && k < |s.active| && !s.active[k].completed && s.active[k].next < |s.active[k].nbs|
      && s.active[k].nbs[s.active[k].next].WellFormed() && s.active[k].cursor + MAX_PACKET <= |s.mem|
    case MarkCompleted(k) => k < |s.active| && !s.active[k].completed && s.active[k].next == |s.active[k].nbs|
    case PublishNext => s.publishers > 0 && s.active != [] && s.active[0].completed
    case PublishDone => s.publishers > 0 && !(s.active != [] && s.active[0].completed)
    case ClientTakes => true
    case ClientWrites(i, bytes) =>
      Outstanding(s, i) && |bytes| == |s.log[i].data|
      && Offset(s.log[i].pos, s.cap) + PACKET_HEADER + |bytes| <= |s.mem|
    case ClientReleases(i) => Outstanding(s, i) && s.client.headRelease < s.cap
    case SetDisconnected => s.phase == Live
    case PassBarrier =>
      s.phase == Disconnecting && s.entered == s.inside == s.publishers == 0
      && forall k :: 0 <= k < |s.active| ==> s.active[k].completed
    case InvalidateTail => s.phase == Drained
    case Reregister => s.phase == Closed
  }

  function SlotsFor(pos: nat, contents: seq<seq<byte>>): (slots: seq<Slot>)
    ensures |slots| == |contents|
    decreases |contents|
  {
    if contents == [] then []
    else [Slot(pos, contents[0], false, false)] + SlotsFor(pos + PacketSpace(|contents[0]|), contents[1..])
  }

  ghost function Step(s: State, e: Event): State
    requires ValidCapacity(s.cap) && |s.mem| == s.cap + SLACK && Enabled(s, e)
  {
    match e
    case SenderEnters => s.(entered := s.entered + 1)
    case SenderTurnedAway => s.(entered := s.entered - 1)
    case SenderAdmitted =>
      s.(entered := s.entered - 1, inside := if s.phase == Replaced then s.inside else s.inside + 1)
    case ReserveFails(_) => s.(inside := s.inside - 1)
    case Reserve(nbs) => ReserveStep(s, nbs)
    case CopyNext(k) => CopyStep(s, k)
    case MarkCompleted(k) =>
      s.(active := s.active[k := s.active[k].(completed := true)], publishers := s.publishers + 1)
    case PublishNext =>
      s.(active := s.active[1..], tail := s.active[0].end, published := s.active[0].hi)
    case PublishDone => s.(publishers := s.publishers - 1)
    case ClientTakes => TakeStep(s)
    case ClientWrites(i, bytes) =>
      s.(mem := Splice(s.mem, Offset(s.log[i].pos, s.cap) + PACKET_HEADER, bytes),
         log := s.log[i := s.log[i].(data := bytes)])
    case ClientReleases(i) => ReleaseStep(s, i)
    case SetDisconnected => s.(phase := Disconnecting)
    case PassBarrier => s.(phase := Drained)
    case InvalidateTail => s.(phase := Closed, tail := MAXULONG)
    case Reregister => s.(phase := Replaced)
  }

  /** The lock-held region of TunSendNetBufferLists that reserves ring space and appends to the active list. */
  ghost function ReserveStep(s: State, nbs: seq<NetBuffer>): State
    requires ValidCapacity(s.cap) && s.inside > 0
  {
    var ringTail := RingWrap(s.ringTail + U32(Space(nbs)), s.cap);
    var log := s.log + SlotsFor(Pos(s.log, |s.log|), Contents(nbs));
    s.(inside := s.inside - 1,
       ringTail := ringTail,
       active := s.active + [Chain(nbs, 0, s.ringTail, ringTail, false, |s.log|, |log|, |s.log|)],
       log := log,
       accepted := s.accepted + Contents(nbs))
  }

  /** A chain after one turn of its copy loop. */
  function NextCopied(c: Chain, cap: nat): Chain
    requires cap > 0 && c.next < |c.nbs|
  {
    var nb := c.nbs[c.next];
    if nb.Oversize() then c.(next := c.next + 1)
    else c.(next := c.next + 1, cursor := RingWrap(c.cursor + PacketSpace(nb.length), cap), done := c.done + 1)
  }

  function MarkWritten(log: seq<Slot>, j: nat): (log': seq<Slot>)
    ensures |log'| == |log|
  {
    if j < |log| then log[j := log[j].(written := true)] else log
  }

  /** One turn of the copy loop of chain k: skip an oversize buffer, or fill the packet at the cursor. */
  function CopyStep(s: State, k: nat): State
    requires ValidCapacity(s.cap) && |s.mem| == s.cap + SLACK
    requires k < |s.active| && s.active[k].next < |s.active[k].nbs| && s.active[k].cursor + MAX_PACKET <= |s.mem|
    requires s.active[k].nbs[s.active[k].next].WellFormed()
  {
    var c := s.active[k];
    var nb := c.nbs[c.next];
    var active := s.active[k := NextCopied(c, s.cap)];
    if nb.Oversize() then s.(active := active)
    else s.(mem := CopyPacket(s.mem, c.cursor, nb), active := active, log := MarkWritten(s.log, c.done))
  }

  /** WintunReceivePacket; received records the bytes found in memory. */
  ghost function TakeStep(s: State): State
    requires ValidCapacity(s.cap) && |s.mem| == s.cap + SLACK
  {
    var (c, r) := ClientReceive(s.cap, s.client, s.tail, s.mem);
    if r.Packet? && r.at + r.size <= |s.mem| then
      s.(client := c, taken := s.taken + 1, received := s.received + [s.mem[r.at..r.at + r.size]])
    else s.(client := c)
  }

  /** WintunReleaseReceivePacket on the packet in slot i. */
  ghost function ReleaseStep(s: State, i: nat): State
    requires ValidCapacity(s.cap) && |s.mem| == s.cap + SLACK && i < |s.log| && s.client.headRelease < s.cap
  {
    var mem := MarkReleased(s.mem, Offset(s.log[i].pos, s.cap) + PACKET_HEADER);
    var client := ReleaseFront(s.cap, s.client, mem);
    s.(mem := mem, client := client, head := client.headRelease,
       log := s.log[i := s.log[i].(marked := true)],
       freed := s.freed + (s.client.packetsToRelease - client.packetsToRelease))
  }
}
