# Verified model of the tunnel

This project models the parts of the repository where correctness is subtle, and proves their properties with Dafny.
`dafny verify dfyconfig.toml` checks everything.

**The Wintun rings.** A client and the kernel driver share two byte rings without a common lock. On each side several
threads finish packets in any order while publication follows the order of reservation. `RingLayout` proves the
arithmetic of offsets, wrapping and the slack behind the ring. `SendRing` and `ReceiveRing` are step systems: their
states hold the ring fields, the memory with its size words, the cursors of both sides, the active lists and the
threads, and every region under a lock is one step, as are the accesses of the wake-up handshake and of the disconnect
barrier; a return of the driver is two, since another thread waits for the event in its middle without the lock. Every
packet carries its unwrapped position as history, and every stored offset is proved to be such a position wrapped.
`SendRingInvariant` and `ReceiveRingInvariant` prove what every step keeps; the two `Theorems` modules draw the
conclusions for all runs and reachable states. `ReceiveRingReturns` says exactly when a return in two halves goes
wrong, and `ReceiveRingRace` builds, step by step, runs in which it does. `Session`, `Driver` and `DriverReceive` hold
the imperative code of the entry points over a shared ring object; their methods are proved to compute the functions
the step systems use, and `DriverRefinement` and `ReceiveRefinement` show that uninterrupted calls and loops are
repetitions of the single steps. `SendRingBytes` follows the bytes of the driver's buffers to the client, `IpClass`
says which packets the driver lends to the network stack, `ConsumerLoop` what the driver's thread does and waits for,
and `AnyRing` what both sides make of a ring with arbitrary contents.

**Command lines.** `CommandLine` holds the quoting of arguments, the growing buffer it is written through, and the
documented parsing rules it is inverse to.

**Packets.** `InternetChecksum` and `Packet` hold the checksum and header code, and `TransportHeaders` says what it
accepts. `Tls` holds the server name finder with a serializer it inverts, and `TlsExact` says what it finds in any
bytes. `BypassStrategy` holds the splitting, junk and chaining code; `SplitPlaces` says where a packet is split, and
`StreamPreservation` proves that the segments of a chain make up the original stream. `Receiver` is a TCP receiver
that sees only what is on the wire; `ChainPlan` tells what a chain injects from its strategies and the payload alone,
and `Delivery` and `JunkOverlap` prove exactly when the receiver delivers something else than it would have without
the chain.

**DNS.** `DnsCodec` holds the query and response encoders, the question parser and the answer walker, which undo each
other; `DnsMessages` is about the walker on well-formed messages of any server, `QuestionEcho` about the question that
a response repeats. `DnsReply` puts a response into an IP and UDP envelope, and `DnsAnswer` says which packets are
answered and with what message.

**Routes.** `RouteTable` holds the object that installs routes and its books; `RouteCoverage` proves over every run
that the books cover what is installed, and `RouteRestore` what a run and its clean-up leave in the table.
`RouteEffects` says what each operation does by itself.

`Words` holds bytes, 32-bit arithmetic and bit masks. C integers are mathematical integers with the wrap-around of
their width written out.

## Assumptions

- Clients keep the documented contract: packet sizes are at most 0xFFFF, and each packet is released or sent once. The
  client may write into packets it holds.
- Memory is sequentially consistent, as the acquire and release accesses and the barriers of the source intend.
- The runs of the receive ring are those in which no returner writes a head that shows clients more space than there is,
  a condition on the stored offsets. The code does not ensure it. `ReceiveRingReturns.ReturnIsSafeExactly` proves that
  it holds if and only if no allocations admitted after the write overrun what is in use;
  `ReceiveRingReturns.PromptExecutionsAreRuns` that it always holds in runs, told by their events alone, in which the
  driver never writes the head between the halves of a return; `ReceiveRingRace.LateReturnLetsPacketsOverlap` gives a
  run in which it does not hold.
- The receiver of the TCP theorems has an established connection and expects the sequence number of the packet the chain
  starts from; its window and its distance in hops are arbitrary.
- Deleting a route succeeds or finds none, and creating a row that exists reports so. Whether a new row is accepted is an
  input, as are the success of an allocation, the random bytes of junk and the resolver's answers.

## Where the code and its description differ

- `include/bypass_strategy.h` calls junk packets out-of-window. With the default offset of -1 and size of 32 they are in
  the window and overlap every payload that is not empty (`JunkOverlap.DefaultJunkMeets`; `JunkOverlap.MeetsExactly` for
  any offset and size). What keeps them out is their time to live: `Delivery.ReceiverGetsPayload` is about junk that does
  not arrive, `Delivery.ChainChangesExactly` about any.
- Both segments of a split carry the flags of the original. If it has a FIN, the receiver ends the stream behind the first
  segment and the rest is lost; `Delivery.ReceiverGetsPayload` says exactly when.
- The question parser refuses only label lengths whose two high bits are set, so labels of 64 to 191 bytes round trip
  too, although section 3.1 of RFC 1035 stops at 63. `DnsCodec.QueryRoundTrip` says exactly which names do.
- The driver's space test relies on a 32-bit sum; `Driver.SpaceTestIsSoundExactly` says exactly when that is sound and
  `Driver.OverflowingMeasureIsAdmitted` gives the input for which it is not.
- `TunReturnNetBufferLists` sets the Empty event before it writes the ring's head, both under its lock, but the thread
  that waits for the event takes no lock. If that thread writes the head in between, the return then moves the head back,
  unless by whole laps, or replaces the invalid head a finished driver left, so that clients no longer get end of file,
  although the comment at `libs/wintun/driver/wintun.c:581` says that waiting prevents this
  (`ReceiveRingReturns.HeadIsLeftBehindExactly`, `ReceiveRingReturns.InvalidHeadLastsExactly`). If the head then shows
  clients space that is in use, a later allocation overlaps a packet (`ReceiveRingReturns.ReturnIsSafeExactly`). Runs
  that get there are in `ReceiveRingRace`.
- The answer walker reads a compression pointer behind the labels of a record's owner as another label, so it loses
  records of messages that section 4.1.4 of RFC 1035 allows (`DnsMessages.MixedOwnerLosesExactly`).
- A question whose class is not IN, or with a dot byte in a label, is answered with another question
  (`QuestionEcho.EchoExactly`).
- Cleaning up deletes rows that were in the table before, if they were named to be added:
  `RouteRestore.CleanupRestoresExactly` says what is left.
- Removing a route or a host, and replacing the addresses of a host, delete rows that are still recorded for others;
  `RouteCoverage.RecordedStaysInTable` says exactly when.

## Model

| member | source | states |
|---|---|---|
| RingLayout.TunAlignRoundsUp | libs/wintun/api/session.c:16-17 | the mask expression of TUN_ALIGN is rounding up to the next multiple of 4, for every size that does not overflow |
| RingLayout.TunRingWrapIsOffset | libs/wintun/api/session.c:22 | masking with Capacity - 1 in unsigned arithmetic is the position left after whole laps, for every valid capacity and every value, negative differences included |
| RingLayout.RegistrationAcceptsValidCapacities | libs/wintun/driver/wintun.c:628-632 | of all 32-bit ring sizes, those whose subtraction wraps included, the driver accepts exactly the sizes of rings whose capacity is a power of two in the documented range, and recovers the capacity |
| RingLayout.WrapSub | libs/wintun/api/session.c:194 | the content computed from two wrapped offsets is the distance of their positions, and different positions have different offsets |
| RingLayout.WrapSpace | libs/wintun/api/session.c:264 | the free space computed from two wrapped offsets is one lap less an alignment unit minus the distance of their positions |
| RingLayout.SpaceAllowedExactly | libs/wintun/api/session.c:264 | the space that a head at any earlier position shows is no more than there is if and only if, taking the offset for the last position given up that lies there, clients are within the lap |
| RingLayout.RangeFits | libs/wintun/driver/wintun.c:80-82 | a packet starting anywhere below the capacity ends inside the allocated data area, the trailing slack included |
| RingLayout.RangesDisjoint | libs/wintun/api/session.c:17-22 | packets disjoint before wrapping and within one lap are disjoint in memory, the one that runs past the capacity included |
| SendRingInvariant.SlotsTile | libs/wintun/driver/wintun.c:297-301 | a reservation extends the tiling of the ring by exactly the measured space, for any mix of oversize and other buffers |
| SendRingInvariant.ReservedRegionFits | libs/wintun/driver/wintun.c:297-301 | a reservation that passes the space test keeps all live packets within one lap less an alignment unit |
| SendRingInvariant.TakeOutcome | libs/wintun/api/session.c:178-217 | what WintunReceivePacket finds: end of file, no more items, or the next published packet in reservation order with its bytes |
| SendRingInvariant.ReleaseFrontStops | libs/wintun/api/session.c:232-240 | the release loop frees exactly the released packets up to the first one the client still holds |
| SendRingInvariant.StepKeepsInv | libs/wintun/driver/wintun.c:278-361 | every step of every thread keeps the cross-component invariant: cursor order, tiling, contents of memory, active list, history and barrier |
| SendRingTheorems.RunKeepsInv | libs/wintun/driver/wintun.c:278-361 | the invariant holds in every state of every run |
| SendRingTheorems.DeliveredInOrder | libs/wintun/api/session.c:174-222 | over every interleaving the packets received are a prefix of the packets accepted, in reservation order with exactly their bytes, none lost or duplicated |
| SendRingBytes.DeliveredBytes | libs/wintun/driver/wintun.c:278-346 | over every run, from the chains admitted and the fields of their buffers alone: the i-th packet received has the bytes of the i-th buffer of a valid length, or as many zeroes if these could not be mapped |
| SendRingTheorems.CopyLoopIsExact | libs/wintun/driver/wintun.c:309-346 | in every reachable state a finished copy loop stands at exactly the offset reserved for its chain, the source's ASSERT, with every packet of it written; an unfinished one has room for its next packet |
| SendRingTheorems.ReceiveReturnsNextAccepted | libs/wintun/api/session.c:178-217 | in every reachable state the result of WintunReceivePacket is exactly determined: end of file if and only if invalidated, no more items if and only if everything published was taken, never invalid data, else the next accepted packet |
| SendRingTheorems.TakenIsHeld | libs/wintun/api/session.c:206-218 | a packet returned is the client's from then on, at the place returned: it can be written to and released |
| SendRingTheorems.AllReleasedMeansAllFree | libs/wintun/api/session.c:232-243 | once every packet taken has been released, the ring's head is where the client reads |
| SendRingTheorems.CursorsInOrder | libs/wintun/api/session.c:212-241 | HeadRelease, Head, Tail and RingTail are in this order as positions, within one lap less an alignment unit, and every stored offset is its position wrapped |
| SendRingTheorems.LivePacketsDisjoint | libs/wintun/driver/wintun.c:297-337 | all live packets lie in the ring's allocation and are pairwise disjoint |
| SendRingTheorems.HeldPacketUntouched | libs/wintun/api/session.c:213-243 | between receiving and releasing a packet no step of anyone but the client changes a byte of it |
| SendRingTheorems.NothingStranded | libs/wintun/driver/wintun.c:346-359 | once no sender is at work the active list is empty, everything accepted is published and Tail equals RingTail |
| SendRingTheorems.NoSenderAfterBarrier | libs/wintun/driver/wintun.c:760-775 | after the exclusive lock was passed no thread reserves, copies or publishes on this ring, and the invalidated tail is never overwritten |
| SendRingTheorems.EndOfFileIsFinal | libs/wintun/driver/wintun.c:774-775 | after the tail was invalidated every later WintunReceivePacket of every run reports end of file, a later registration included |
| ReceiveRingInvariant.AllocationFits | libs/wintun/api/session.c:257-273 | an allocation that passes the space test keeps all live packets within one lap less an alignment unit |
| ReceiveRingInvariant.SendFrontStops | libs/wintun/api/session.c:291-301 | the send loop moves over exactly the sent packets up to the first one not sent yet |
| ReceiveRingInvariant.FetchOutcome | libs/wintun/driver/wintun.c:497-513 | the driver's checks never stop it on what clients published: it fetches the next packet in allocation order with the bytes sent |
| ReceiveRingInvariant.HeadEqualsTail | libs/wintun/driver/wintun.c:466 | comparing the two offsets tells exactly whether everything published has been fetched |
| ReceiveRingInvariant.StepKeepsInv | libs/wintun/driver/wintun.c:462-587 | every step of clients, driver thread and returners, a return being two steps, keeps the invariant, but for a head write that shows clients more space than there is |
| ReceiveRingTheorems.RunKeepsInv | libs/wintun/driver/wintun.c:462-587 | the invariant holds in every state of every run without such a head write |
| ReceiveRingTheorems.SentIsFinal | libs/wintun/api/session.c:286-310 | a sent packet is never changed again, every packet keeps its place in allocation order, and what was delivered is never revised |
| ReceiveRingTheorems.ConsumedInAllocationOrder | libs/wintun/driver/wintun.c:462-513 | clients may send in any order, yet the driver consumes exactly a prefix of the packets in allocation order, each sent by then and with the bytes it was sent with |
| ReceiveRingTheorems.DriverStopsOnlyWhenDisconnected | libs/wintun/driver/wintun.c:497-511 | the driver leaves its loop only when disconnected, never on a failed check |
| ReceiveRingTheorems.AllSentMeansAllPublished | libs/wintun/api/session.c:291-304 | once every allocation has been sent, Tail, TailRelease and the ring's Tail are equal and nothing is held back |
| ReceiveRingTheorems.AllocateOutcome | libs/wintun/api/session.c:248-281 | in every reachable state the result of WintunAllocateSendPacket is exactly determined: end of file if and only if invalidated, a full ring if and only if the packet does not fit within the lap from the head, else the place behind the last packet |
| ReceiveRingTheorems.CursorsInOrder | libs/wintun/api/session.c:264-304 | the ring's Head, what has been given up, the driver's head, the ring's Tail, TailRelease and Tail are in this order as positions, within one lap less an alignment unit, and every stored offset is its position wrapped |
| ReceiveRingTheorems.LivePacketsDisjoint | libs/wintun/api/session.c:257-273 | all packets behind the position the ring's head stands for lie in the ring's allocation and are pairwise disjoint |
| ReceiveRingTheorems.HeadStaysBehindLent | libs/wintun/driver/wintun.c:407-422 | the position the ring's head stands for never passes the start of a packet NDIS holds; it is at the first one on the list unless a return is between its halves or was overtaken, and with no returner in flight that packet is still held |
| ReceiveRingTheorems.LentPacketUntouched | libs/wintun/driver/wintun.c:543-580 | while NDIS holds a packet no step changes its bytes or frees its space, whatever is returned or skipped meanwhile |
| IpClass.LentExactly | libs/wintun/driver/wintun.c:519-533 | a packet fetched can be lent, with no return between its halves, if and only if it starts with a serialized fixed IPv4 or IPv6 header; any can be skipped |
| IpClass.DatagramIsLent | libs/wintun/driver/wintun.c:521-525 | every IPv4 datagram, with options and any body and trailer, is lent as one |
| IpClass.Ipv6IsLent | libs/wintun/driver/wintun.c:526-530 | every IPv6 packet, with any payload, is lent as one |
| ReceiveRingReturns.InvalidHeadIsFinal | libs/wintun/driver/wintun.c:584-586 | after the head was invalidated with no return between its halves, every later WintunAllocateSendPacket of every run reports end of file |
| ReceiveRingReturns.InvalidHeadLastsExactly | libs/wintun/driver/wintun.c:419-421 | the invalidated head survives every possible step if and only if no return is between its halves; if one is, its write makes allocations stop reporting end of file |
| ReceiveRingTheorems.NoLostWakeup | libs/wintun/driver/wintun.c:481-495 | whenever the driver is blocked with something to fetch, the event is set or a client past its tail write will set it |
| ReceiveRingTheorems.ClientSignalsBlockedDriver | libs/wintun/api/session.c:302-308 | that client goes through with it: each of its steps is possible and brings it nearer, nobody else delays it, and the last one sets the event while the driver is still blocked |
| ConsumerLoop.IdleTurnBlocks | libs/wintun/driver/wintun.c:462-487 | a turn of the consumer on an empty ring: it spins, sets Alertable, looks once more and blocks |
| ConsumerLoop.LateTailIsSeen | libs/wintun/driver/wintun.c:483-494 | a packet that arrives before the last look keeps it from blocking; flag and event are cleared |
| ConsumerLoop.SpinSeesTail | libs/wintun/driver/wintun.c:468-481 | a packet that arrives while the thread spins is taken up without touching flag or event |
| ConsumerLoop.BlockedWakesExactly | libs/wintun/driver/wintun.c:488-492 | blocked, the thread can go on if and only if it was disconnected or the event is set; the flag is cleared, and the event unless the disconnection woke it |
| ConsumerLoop.FetchTurn | libs/wintun/driver/wintun.c:462-517 | a turn with a packet at hand fetches the next one in allocation order with the bytes sent |
| ConsumerLoop.LendTurn | libs/wintun/driver/wintun.c:519-559 | with an IPv4 or IPv6 header it is appended to the active list, not returned yet |
| ConsumerLoop.SkipTurn | libs/wintun/driver/wintun.c:575-579 | skipped, with no list active, it moves the ring's head behind it |
| ConsumerLoop.WaitsForEmpty | libs/wintun/driver/wintun.c:575-586 | the thread does not go on from there, or to its end, before the active list is empty |
| ConsumerLoop.LastTurn | libs/wintun/driver/wintun.c:462-586 | disconnected, with every list returned, it invalidates the head and is done |
| AnyRing.ReceiveOnAnyRing | libs/wintun/api/session.c:178-217 | on any ring, whatever its offsets and size words: which of the four outcomes WintunReceivePacket has, told by distances around the ring; a packet returned lies within what the offsets say is there and in the data area |
| AnyRing.FetchOnAnyRing | libs/wintun/driver/wintun.c:497-513 | the same of the driver's checks, which stop on anything else |
| AnyRing.AllocateOnAnyRing | libs/wintun/api/session.c:257-275 | the same of an allocation, for any aligned size: admitted if and only if it is no more than what is free around the ring less an alignment unit |
| ReceiveRingReturns.HeadIsLeftBehindExactly | libs/wintun/driver/wintun.c:419-421 | over all runs, whatever the write then does: a return that writes the ring's head leaves the head behind, or overwrites its invalidation, if and only if the driver wrote the head since the return's first half and has finished or skipped packets of other than whole laps |
| ReceiveRingReturns.ReturnIsSafeExactly | libs/wintun/driver/wintun.c:421 | the condition on the stored offsets holds if and only if no sequence of allocations admitted after the write takes the client's tail more than a lap less an alignment unit from what has been given up; then, and only then, the write keeps the invariant |
| ReceiveRingReturns.PromptExecutionsAreRuns | libs/wintun/driver/wintun.c:411-422 | every run of the code in which the driver does not write the head between the halves of a return, told by the events alone, is one the guarantees are about |
| ReceiveRingReturns.PromptHeadIsCurrent | libs/wintun/driver/wintun.c:421 | in the states of such runs the head is at what has been given up, or invalid after the driver finished, whenever no return is between its halves |
| ReceiveRingReturns.PromptFinishIsFinal | libs/wintun/driver/wintun.c:584-586 | in such runs every allocation after the driver finished reports end of file |
| ReceiveRingRace.HeadIsLeftBehind | libs/wintun/driver/wintun.c:575-579 | a run: one packet is lent and returned, the driver skips the next between the halves, and the head ends up one packet behind |
| ReceiveRingRace.LateReturnLetsPacketsOverlap | libs/wintun/driver/wintun.c:575-579 | in that run clients fill the ring before the write, and the next allocation overlaps a packet allocated and not sent yet |
| ReceiveRingRace.LapLateReturnIsHarmless | libs/wintun/driver/wintun.c:575-579 | a run in which the return is overtaken by a whole lap of skipped packets and the head it writes is the current one |
| ReceiveRingRace.InvalidHeadIsOverwritten | libs/wintun/driver/wintun.c:584-586 | a run in which the driver drains and invalidates the head between the halves, and the return replaces it: allocations are admitted with the driver finished |
| Session.TunSession.constructor | libs/wintun/api/session.c:73-133 | a new session: all cursors and ring offsets zero, memory zeroed, not alertable, which is an initial state of both step systems |
| Session.TunSession.ReceivePacket | libs/wintun/api/session.c:174-222 | the bit-masked code changes the cursors and returns what the abstract receive of the step system says, on every input |
| Session.TunSession.AdvanceHeadRelease | libs/wintun/api/session.c:232-240 | the loop computes the abstract release of the step system |
| Session.TunSession.ReleaseReceivePacket | libs/wintun/api/session.c:227-243 | sets the release bit of this packet only, advances HeadRelease by the abstract release and publishes it |
| Session.TunSession.AllocateSendPacket | libs/wintun/api/session.c:248-281 | for every 32-bit size: on success writes only the marked size word and advances Tail, on failure changes nothing, as the abstract allocation says |
| Session.TunSession.AdvanceTailRelease | libs/wintun/api/session.c:291-301 | the loop computes the abstract send of the step system |
| Session.TunSession.SendPacket | libs/wintun/api/session.c:286-310 | clears the bit of this packet only, publishes the advanced TailRelease and sets the event exactly when the tail changed and the ring is alertable |
| Driver.Measure | libs/wintun/driver/wintun.c:264-276 | counts every packet and sums the space of those not oversize modulo 2^32 |
| Driver.MeasureAndCopyAgree | libs/wintun/driver/wintun.c:264-345 | for any lists the copy loop ends at the offset the measured space reserves, even if the measured sum overflows |
| Driver.EveryBufferCounted | libs/wintun/driver/wintun.c:310-344 | sent, error and discarded packets together are exactly the buffers of the chain |
| Driver.AdmissionExactly | libs/wintun/driver/wintun.c:278-299 | a chain is admitted if and only if the miniport runs, is connected, the ring is not invalidated, and the measured space is no more than what is left of the lap between the positions of head and reserved tail; otherwise the first of these that fails is the status |
| Driver.CountersAreExact | libs/wintun/driver/wintun.c:314-344 | buffers of a valid length are counted as sent, with their bytes, or as discarded if they could not be mapped; the others as errors |
| Driver.ListStatusExactly | libs/wintun/driver/wintun.c:314-343 | a list keeps its status if and only if every buffer of it could be sent; otherwise its last one that could not decides |
| Driver.CopyPacketWrites | libs/wintun/driver/wintun.c:317-334 | a copied packet is its size word and the bytes of its buffer, or zeroes, and nothing else changes |
| Driver.SpaceTestIsSoundExactly | libs/wintun/driver/wintun.c:265-299 | the space test admits only what fits, at any fill of any ring, if and only if the packets take less than 2^32 bytes or the overflowed sum is at least the largest capacity |
| Driver.OverflowingMeasureIsAdmitted | libs/wintun/driver/wintun.c:297-298 | otherwise it fails its purpose, for instance here: 65536 packets of 65532 bytes are admitted at any fill of any ring |
| Driver.TunSendDevice.CopyPackets | libs/wintun/driver/wintun.c:310-344 | the nested loops write exactly the packets, end, counters and per-list statuses the specification gives |
| Driver.TunSendDevice.CopyBuffer | libs/wintun/driver/wintun.c:314-342 | one buffer: its size and its bytes at the cursor, zeroes if they could not be mapped, or nothing for an oversize one, and its counter; no other byte changes |
| Driver.TunSendDevice.Publish | libs/wintun/driver/wintun.c:350-358 | publishes exactly the completed chains at the front and signals if and only if there was one |
| Driver.TunSendDevice.Admit | libs/wintun/driver/wintun.c:278-299 | the tests in their order, with the bit-masked space, give the specified status |
| Driver.TunSendDevice.SendNetBufferLists | libs/wintun/driver/wintun.c:255-377 | the whole entry point on every exit path: reservation, ring contents, tail, event, statuses and each counter, or untouched rings with every packet counted as discarded |
| DriverReceive.ReturnOrderIsIrrelevant | libs/wintun/driver/wintun.c:395-435 | what is left on the active list and where the head ends depends only on which lists were returned, not on their order |
| DriverReceive.TunReceiveDevice.ReturnOne | libs/wintun/driver/wintun.c:407-422 | marking one list and popping the returned front moves the head as specified |
| DriverReceive.TunReceiveDevice.ReturnNetBufferLists | libs/wintun/driver/wintun.c:389-441 | a whole call equals marking all lists and popping once; lists with a success status are counted as received, the others as errors; the front of the active list is then one still held |
| DriverReceive.TunReceiveDevice.FetchPacket | libs/wintun/driver/wintun.c:497-513 | the bit-masked checks decide and advance as the abstract fetch of the step system, on every ring content |
| DriverReceive.TunReceiveDevice.Classify | libs/wintun/driver/wintun.c:519-533 | flags and frame type are those of IPv4 or IPv6 if and only if the packet starts with such a header, and there are none if and only if it starts with neither |
| DriverReceive.TunReceiveDevice.Lend | libs/wintun/driver/wintun.c:549-559 | appends one unreturned list and keeps the Empty event equivalent to an empty list |
| DriverRefinement.CopyLoopIsSteps | libs/wintun/driver/wintun.c:309-344 | the uninterrupted copy loop is a repetition of enabled single steps of the interleaved system, with the same memory and cursor |
| DriverRefinement.CopyArrivesAtReservation | libs/wintun/driver/wintun.c:301-345 | such a repetition from the start of a chain ends at the offset reserved for it |
| DriverRefinement.PublishLoopIsSteps | libs/wintun/driver/wintun.c:350-358 | the publishing loop is a repetition of single publishing steps, with the same active list and tail |
| DriverRefinement.AdmittedIsReserve | libs/wintun/driver/wintun.c:291-301 | the entry point admits a chain if and only if its reservation is a possible step of the ring, and turns it away if and only if that step is |
| DriverRefinement.SendCallIsSteps | libs/wintun/driver/wintun.c:278-361 | a whole uninterrupted call is a composition of steps: refused, it changes nothing; admitted, it leaves memory, reserved tail, active list and tail as the contract of the entry point says |
| DriverRefinement.SendCallIsReachable | libs/wintun/driver/wintun.c:278-361 | that composition leads from one state of a run to another |
| DriverRefinement.PacketGoesThrough | libs/wintun/driver/wintun.c:278-361 | from any quiet state of any run, a packet there is space for is admitted, and the next WintunReceivePacket returns it with its bytes |
| DriverRefinement.UnregisterGoesThrough | libs/wintun/driver/wintun.c:760-775 | with no sender at work unregistering goes through, after which the client gets end of file, a later registration included |
| ReceiveRefinement.PopLoopIsSteps | libs/wintun/driver/wintun.c:411-422 | the popping loop is a repetition of the two halves of a return, with the same active list and head |
| ReceiveRefinement.PopRestIsReachable | libs/wintun/driver/wintun.c:411-422 | uninterrupted, each of these writes of the head is safe, so they lead from one state of a run to another |
| ReceiveRefinement.ReturnOneIsSteps | libs/wintun/driver/wintun.c:407-422 | returning one list is the marking step followed by that loop, with the active list and head the specification of the method gives |
| ReceiveRefinement.SendPacketIsSteps | libs/wintun/api/session.c:286-310 | an uninterrupted WintunSendPacket, composed of the locked step and, if the tail changed, the three steps of the handshake, leaves memory, cursors, tail and event as the contract of the session's method says |
| ReceiveRefinement.SendPacketIsReachable | libs/wintun/api/session.c:286-310 | that composition leads from one state of a run to another |
| CommandLine.CommandLineRoundTrip | libs/wintun/api/rundll32.c:63-101 | for every list of arguments the documented CommandLineToArgvW rules give back exactly that list, whatever backslashes, quotes, blanks and empty strings it holds |
| CommandLine.QuoteBounds | libs/wintun/api/rundll32.c:70-100 | an encoded argument has at most twice its length and two characters, and gains no NUL |
| CommandLine.ShortArgumentsFit | libs/wintun/api/rundll32.c:66-67 | an argument below the builder's limit takes less than 2^31 bytes encoded |
| CommandLine.CommandLineIsNulFree | libs/wintun/api/rundll32.c:63-101 | NUL-free arguments make a NUL-free command line |
| CommandLine.ReaderGetsArguments | libs/wintun/setupapihost/host.c:59-63 | reading the builder's buffer as a C string and splitting it gives back the NUL-free arguments |
| CommandLine.CommandLineBuffer.Reallocate | libs/wintun/api/rundll32.c:31-38 | reallocation keeps the contents and zeroes the rest |
| CommandLine.CommandLineBuffer.AppendToBuffer | libs/wintun/api/rundll32.c:22-44 | appends exactly the character or changes nothing, succeeds exactly when no size overflows and the heap grants every growth it is asked for, and keeps room for a zero terminator it never writes |
| CommandLine.SkipBackslashes | libs/wintun/api/rundll32.c:74-78 | counts the whole run of backslashes |
| CommandLine.CommandLineBuffer.AppendEscaped | libs/wintun/api/rundll32.c:70-98 | the index loop appends the escaped argument, and succeeds exactly when no size overflows and the heap grants every growth on the way |
| CommandLine.ArgvToCommandLine | libs/wintun/api/rundll32.c:46-107 | a result holds exactly the command line followed by at least one zero; there is one if and only if there are arguments, each is below the eighth of the 32-bit range, and the heap, asked anew at every growth, grants each one needed |
| InternetChecksum.AddWords | src/packet.cpp:94-107 | the loop's wrapping sum is the sum of the little-endian words modulo 2^32, the odd last byte included |
| InternetChecksum.FoldInPlace | src/packet.cpp:108-110 | the fold loop terminates on every sum with the fully folded value |
| InternetChecksum.IPChecksum | libs/wintun/example/example.c:205-216 | the two-step fold of the example gives the same checksum as the fold loop, on every buffer |
| InternetChecksum.FoldIsResidue | src/packet.cpp:108-110 | folding is the sum modulo 65535, represented in 1..65535, and 0 only for 0 |
| InternetChecksum.SumNeverOverflows | src/packet.cpp:94-107 | up to 131074 bytes the 32-bit sum never overflows and the checksum is the complement of that residue |
| InternetChecksum.LimitIsTight | src/packet.cpp:95-107 | with one byte more it can overflow |
| InternetChecksum.ByteOrderIndependence | src/packet.cpp:97-99 | the folded sum of little-endian words is the byte swap of the one in network order, odd lengths included |
| InternetChecksum.StoredChecksumVerifies | src/packet.cpp:114-117 | storing the checksum at any even place over a zeroed field makes re-verification yield 0, also with all ones in the place of zero |
| InternetChecksum.VerifiesExactly | src/packet.cpp:94-112 | a buffer verifies if and only if its sum is a positive multiple of 65535 |
| Packet.ParseIPv4AcceptsDatagrams | src/packet.cpp:9-21 | a buffer is accepted if and only if it is some IPv4 datagram, written out with its header length and total length, followed by anything |
| Packet.TcpPayloadIsRest | src/packet.cpp:55-70 | the payload is exactly what lies between the headers and the total length, empty exactly if nothing does; the last bounds test never fails |
| TransportHeaders.ParseTCPAcceptsSegments | src/packet.cpp:23-36 | a packet is accepted if and only if a TCP header, with whatever options, follows an IPv4 header that says TCP |
| TransportHeaders.ParseUDPAcceptsDatagrams | src/packet.cpp:38-53 | a packet is accepted if and only if a UDP header, followed by as many bytes as it says, follows an IPv4 header that says UDP; and these bytes are the payload |
| TransportHeaders.VerifiesByPseudoHeader | src/packet.cpp:119-148 | a transport checksum verifies if and only if the words of addresses, protocol, length, header and payload in network order add up to all ones |
| Packet.RecalcIPChecksum | src/packet.cpp:114-117 | the packet afterwards differs only in the two checksum bytes, which hold the checksum over the zeroed field |
| Packet.IpChecksumVerifies | src/packet.cpp:114-117 | a recalculated header verifies at a receiver, for every header length |
| Packet.BuildPseudo | src/packet.cpp:126-145 | the copied buffer is pseudo header, transport header and payload |
| Packet.RecalcTCPChecksum | src/packet.cpp:119-148 | the packet afterwards differs only in the two checksum bytes, which hold the checksum over the pseudo packet with the field zeroed |
| Packet.TcpChecksumVerifies | src/packet.cpp:119-148 | a recalculated segment verifies, for every header length and payload up to the checksum limit |
| Tls.FindSNIOffset | src/tls_parser.cpp:16-95 | on arbitrary bytes the cursor code terminates, reads nothing out of range and returns what the recursive finder gives |
| Tls.WalkExtensions | src/tls_parser.cpp:57-94 | the extension loop equals the recursive walk |
| Tls.FindSNI | src/tls_parser.cpp:16-95 | any result (o, n) has o + n within the payload, n encoded in the two bytes before o and the host_name type before that |
| Tls.FindsTheHostName | src/tls_parser.cpp:16-105 | for every serialized ClientHello with any session id, ciphers, compression methods, other extensions before and anything after, the finder returns exactly the place of the host name and ExtractSNI the host name |
| Tls.FindsNothingWithout | src/tls_parser.cpp:57-94 | a serialized ClientHello without a server_name extension yields nothing |
| TlsExact.FindsExactly | src/tls_parser.cpp:16-95 | on arbitrary bytes: a name is found at a place if and only if the payload is a record and hello as the finder sees them, with extensions it goes past and then the name there |
| TlsExact.RecordsExactly | src/tls_parser.cpp:4-14 | a handshake record and a hello are told by their first bytes, the lengths being ignored |
| BypassStrategy.RebuiltIsFaithful | src/bypass_strategy.cpp:61-73 | a rebuilt packet that fits is accepted by the parsers, carries exactly the given payload, sequence number, time to live and flags, differs nowhere else in its headers, and both checksums verify |
| BypassStrategy.BuildSegment | src/bypass_strategy.cpp:82-96 | the in-place writes produce the specified segment |
| BypassStrategy.DesyncSplit | src/bypass_strategy.cpp:31-107 | the split code returns the specified two segments or nothing, with the automatic and the configured cut |
| BypassStrategy.DesyncJunk | src/bypass_strategy.cpp:118-169 | the junk code returns the specified junk packet and the unmodified packet, for any random bytes |
| BypassStrategy.ChainDesync | src/bypass_strategy.cpp:238-282 | the pop and push loop computes the fold of the strategies over the list |
| StreamPreservation.SplitIsSegmentation | src/bypass_strategy.cpp:31-107 | a split happens if and only if the cut is inside the payload; then both segments parse, verify, carry exactly prefix and suffix under the right sequence numbers, and differ from the original only in length, sequence number and checksums |
| SplitPlaces.ConfiguredPlace | src/bypass_strategy.cpp:37-59 | a configured offset is where the payload is cut if it is inside, and otherwise there is no split |
| SplitPlaces.HalfPlace | src/bypass_strategy.cpp:47-50 | with offset 0 and no host name, any payload of two bytes or more is cut at its half |
| SplitPlaces.HostNamePlace | src/bypass_strategy.cpp:38-46 | with offset 0 and a host name of n bytes, the first segment ends n / 2 bytes into it |
| SplitPlaces.HostNameIsCut | src/bypass_strategy.cpp:31-107 | a packet with any serialized ClientHello that has a host name of two bytes or more is cut strictly inside the name |
| StreamPreservation.AutomaticCutIsInsideName | src/bypass_strategy.cpp:38-51 | the automatic cut is strictly inside the host name if and only if the name has two bytes or more |
| StreamPreservation.JunkIsWellFormed | src/bypass_strategy.cpp:118-169 | a junk packet that fits parses, verifies and carries the noise, time to live, flags and shifted sequence number |
| StreamPreservation.TurnPreserves | src/bypass_strategy.cpp:253-278 | one turn of the chain keeps: last packet genuine and parsing, genuine payloads concatenate to the original, sequence numbers consecutive modulo 2^32, every genuine packet a segment of the flow |
| StreamPreservation.ChainPreservesStream | src/bypass_strategy.cpp:238-282 | after any chain over junk and split of any length and order the last packet is genuine and parses, the genuine payloads concatenate to the original, and each has the original sequence number plus the bytes before it modulo 2^32 |
| StreamPreservation.ChainIsEmptyExactly | src/bypass_strategy.cpp:255-263 | a chain gives up its packet if and only if it is not empty and the parsers refuse the original; the re-parse exits are never taken later |
| ChainPlan.ChainCarries | src/bypass_strategy.cpp:238-282 | the packets of any chain carry, in order, exactly the parts of the payload and the noise that the plan computed from strategies and payload lists, each at its offset modulo 2^32 |
| ChainPlan.PlanFirst | src/bypass_strategy.cpp:31-107 | the first segment of a chain ends where its first split with a cut inside the payload cuts |
| Delivery.ChainChangesExactly | src/bypass_strategy.cpp:238-282 | for every chain, hop count and window: the receiver delivers something else than for the packet alone if and only if a FIN packet is cut within the window, or noise that lasts for the hops is first at an offset where the text has another byte or has just ended |
| Delivery.ChainDelivery | src/bypass_strategy.cpp:238-282 | what a receiver delivers of any chain whose junk does not last for the hops: the payload as far as the window goes, or the first segment of it if the packet carries a FIN |
| JunkOverlap.ArrivingJunkChangesExactly | src/bypass_strategy.cpp:118-169 | junk that arrives before any splits, as in the default chain, changes the delivered stream if and only if one of its bytes differs from the byte in whose place it comes or continues the stream, FIN losses aside |
| JunkOverlap.SomeJunkChangesExactly | src/bypass_strategy.cpp:134-139 | some random bytes of the configured size change the stream if and only if the sequence numbers of the junk meet those of the text or the one behind it |
| JunkOverlap.MeetsExactly | src/bypass_strategy.cpp:145-148 | n bytes from offset k and m bytes from offset 0 have a sequence number in common, modulo 2^32, if and only if neither is empty and one range starts within the other |
| JunkOverlap.DefaultJunkMeets | src/bypass_strategy.cpp:112-116 | the default junk, 32 bytes at offset -1, overlaps every payload but the empty one |
| Delivery.ReceiverGetsPayload | src/bypass_strategy.cpp:238-282 | for every chain whose junk does not last for the hops, the receiver delivers what it would deliver of the packet alone, unless the packet carries a FIN and the first cut is inside payload and window: an if and only if |
| StreamPreservation.ChainDelaysAreOrdered | src/bypass_strategy.cpp:273-276 | delays never decrease along the list as long as the configured ones do not overflow together |
| DnsCodec.AppendName | src/dns_proxy.cpp:209-215 | the label loop appends the encoding of the name's labels and the terminator |
| DnsCodec.JoinIsGood | src/dns_proxy.cpp:209-215 | any labels of 1 to 191 dot-free bytes, those of 1 to 63 bytes included, joined with dots make a name the codec round trips |
| DnsCodec.LabelsOfJoin | src/dns_proxy.cpp:209-214 | splitting at dots undoes joining, for non-empty dot-free labels |
| DnsCodec.ParseDnsQuestion | src/dns_proxy.cpp:35-93 | the cursor loop returns what the recursive parser gives, and the id whenever there is a header |
| DnsCodec.BuildQuery | src/dns_proxy.cpp:201-218 | the pushed bytes are the fixed header and the encoded question |
| DnsCodec.QueryRoundTrip | src/dns_proxy.cpp:201-218 | the query built for a name parses back to the same name and id if and only if the name is good: labels of 1 to 191 bytes between dots |
| DnsAnswer.QueryIsMessage | src/dns_proxy.cpp:201-218 | the query is the message with the fixed id, recursion desired, and one question of type A and class IN |
| DnsCodec.BuildDnsResponse | src/dns_proxy.cpp:95-142 | the pushed bytes are header, question and one record per address |
| DnsCodec.ReadReply | src/dns_proxy.cpp:225-297 | the answer walker with its cursor returns what the recursive walk gives, on any bytes |
| DnsCodec.ResponseRoundTrip | src/dns_proxy.cpp:240-297 | the walker applied to a built response returns exactly its addresses in order, as many as the 16-bit count tells, with the smaller of time to live and 300; the id is kept and a response never parses as a query |
| DnsAnswer.ResponseIsMessage | src/dns_proxy.cpp:95-142 | the response is the message with the question, flags 0x8180, and for each address a record of type A and class IN that the name of the question owns |
| DnsAnswer.QuestionOfMessage | src/dns_proxy.cpp:35-93 | of any well-formed message the parser gives the name if and only if it is a query whose first question is of type A with an uncompressed name |
| DnsMessages.ResponseIsRead | src/dns_proxy.cpp:240-297 | of every well-formed response of any server, with compressed names anywhere but behind the labels of an owner, exactly the addresses of its address records are returned, in order, with the smallest time to live |
| DnsMessages.ErrorGivesNothing | src/dns_proxy.cpp:225-238 | a response with an error code, whatever its records, and one too short for a header give no address |
| DnsMessages.MixedOwnerLosesExactly | src/dns_proxy.cpp:268-281 | at an owner of labels and a pointer with less than 201 bytes behind it the walk ends: what is returned are the addresses before it, all of them if and only if no later record holds one |
| DnsMessages.MixedOwnerLosesAddress | src/dns_proxy.cpp:268-281 | a message for it: one address record, nothing returned |
| QuestionEcho.EchoExactly | src/dns_proxy.cpp:41-92 | the question encoded from a parsed name is byte for byte the one on the wire if and only if its class is IN and no label has a dot in it |
| DnsReply.BuildReply | src/dns_proxy.cpp:408-466 | the in-place header writes, copies and both checksums produce the specified packet |
| DnsReply.ReplyIsFaithful | src/dns_proxy.cpp:408-466 | for any accepted query and any reply that fits, the packet passes the parsers, yields exactly the DNS message, has addresses and ports swapped, a header without options and a time to live of 64, and both checksums verify, UDP's even after the substitution of zero |
| DnsReply.ProcessDnsPacket | src/dns_proxy.cpp:344-470 | the whole function returns what its specification gives, for any resolver |
| DnsReply.ClientGetsAnswers | src/dns_proxy.cpp:344-470 | a client asking for a good name gets one packet with both checksums right, from the address and port it asked to the ones it asked from, with its id, its name and exactly the resolved addresses in order; the question section is its own byte for byte if and only if it is a plain one |
| DnsAnswer.AnsweredExactly | src/dns_proxy.cpp:344-470 | of all UDP packets with a well-formed message exactly those to port 53 that ask for an address the resolver has are answered, with the id and name asked for and a record for each address |
| RouteTable.SubnetMaskToPrefixLength | src/route_table.cpp:9-16 | the loop counts the one bits of the mask |
| RouteTable.PrefixOfContiguousMask | src/route_table.cpp:9-16 | for a mask of k leading ones the number of one bits is the prefix length k |
| RouteEffects.PrefixLengthCountsBits | src/route_table.cpp:9-16 | for any mask the prefix length is the number of bits set, wherever they are |
| RouteTable.RouteTable.AddRoute | src/route_table.cpp:68-86 | answers true if and only if the row is there or accepted; then the row of that prefix length is in the table and the entry last in the list, otherwise nothing changes |
| RouteEffects.AddRouteEffect | src/route_table.cpp:25-86 | the same of the operation of the runs; a row counts as created exactly if it was not there |
| RouteTable.RouteTable.RemoveRoute | src/route_table.cpp:88-100 | deletes the row whether listed or not and erases the first matching entry |
| RouteEffects.RemoveRouteEffect | src/route_table.cpp:48-100 | the row leaves the table, the first matching entry the list, and the answer tells whether there was one |
| RouteTable.RouteTable.AddHostRoutes | src/route_table.cpp:102-126 | for any answers of the system: the rows accepted are in the table, and if there is any, the host's old rows not given again are gone and its record is replaced |
| RouteEffects.AddHostEffect | src/route_table.cpp:102-126 | exactly the addresses whose row is there or accepted get their row; if any does, they become the record of the host, and the rows of its former addresses not given again leave the table |
| RouteTable.RouteTable.RemoveHostRoutes | src/route_table.cpp:128-137 | the host's rows are gone from the table and its record from the books, and nothing else changes |
| RouteEffects.RemoveHostEffect | src/route_table.cpp:128-137 | exactly the rows of the host's addresses and its record go |
| RouteTable.RouteTable.CleanupAll | src/route_table.cpp:148-166 | deletes exactly the rows the lists mention, in whatever order hosts come, and empties the lists |
| RouteCoverage.DoKeepsBooks | src/route_table.cpp:25-166 | every operation keeps: what was installed is in the table and in the lists, and the table holds nothing else new |
| RouteCoverage.RunKeepsBooks | src/route_table.cpp:25-166 | every run keeps this too, with arbitrary refusals of fresh rows |
| RouteCoverage.CleanupLeavesNoOrphans | src/route_table.cpp:148-166 | cleaning up after any run leaves nothing this object installed and no row that was not there before it |
| RouteRestore.CleanupRestoresExactly | src/route_table.cpp:148-166 | after any run and its clean-up the table holds exactly the rows that were there before and that no operation was given to add or remove; so it is unchanged if and only if there is no such row |
| RouteCoverage.CleanupIsIdempotent | src/route_table.cpp:148-166 | cleaning up again changes nothing |
| RouteCoverage.HostIsReplaced | src/route_table.cpp:113-125 | after addresses were added for a host, its recorded addresses are among the given ones and in the table, and its other old ones are not in the table |
| RouteCoverage.RecordedStaysInTable | src/route_table.cpp:25-166 | for every operation: everything recorded stays in the table if and only if the operation deletes no row that remains recorded, a condition on the state before and the operation |
| RouteCoverage.SharedAddressIsLost | src/route_table.cpp:128-137 | two hosts with one address: removing one deletes the row the other still records |
| RouteCoverage.OtherRowsAreLost | src/route_table.cpp:88-126 | the other ways to lose a row: an entry recorded twice and removed once, and a shared address replaced for one of its hosts |

## Left out

- ReceiveRingTheorems.RunKeepsInv: speaks of runs without head writes that show clients space in use, since such a write breaks the invariant; `ReceiveRingReturns.ReturnIsSafeExactly` is the exact condition.
- What the receive ring does after such a write, beyond the allocations it admits and the packets that overlap.
- Reservations of the send ring's step system measure less than 2^32 bytes in total; the entry point itself is modelled without this limit, and `Driver.SpaceTestIsSoundExactly` says what it excludes.
- The interleaving of the imperative classes: their methods run alone; concurrency is the subject of the step systems.
- The consumer loop of `TunProcessReceiveData` never ends by itself; it appears as steps of the receive ring and as turns made of them, and only its checks, its classification and its lending of packets as methods.
- Weak memory, spin timing, priorities and performance counters.
- NDIS, MDL, IRP, OID and PnP plumbing of the driver, and the handle and memory management around a session.
- Statistics other than the counters of sent, failed and discarded packets.
- SendRingTheorems.NothingStranded: says what holds once senders are done, not that the scheduler lets them finish.
- ReceiveRingTheorems.ClientSignalsBlockedDriver: says that each step of the client is possible and leads to the event, not that the scheduler runs it.
- The pointer overflow test of `AppendToBuffer`: buffers are objects, not addresses.
- Program launching and output parsing around the command line, and the separate rules for the program name.
- The HTTP strategy: it inserts a byte, so it does not preserve the stream, and it can push a packet past 65535 bytes.
- Junk sizes so large that 32-bit packet lengths wrap around.
- Delivery.ChainChangesExactly: junk that lasts for the hops fits an IP packet; longer junk has a wrapped length field.
- Delivery.ReceiverGetsPayload: packets arrive in list order or not at all; other losses, reordering and retransmission are not modelled, nor what a SYN or RST does to the connection.
- DnsMessages.MixedOwnerLosesExactly: with 201 bytes or more behind such an owner the walker goes on reading somewhere in them, and what it takes for records there is not described.
- The upstream query over HTTPS, the cache with its clock, and the system resolver: they are an arbitrary function of the name.
- The metric of routes, other interfaces' rows and changes to the table by other programs.
- Logging, configuration parsing, the packet loop, session tracking, QUIC detection and the remaining program files.
