# Verified core of the Ethernet NAT router

Dafny models of the stateful parts of the router firmware, and proofs of what they keep: the
DHCP lease allocator, the packet-capture ring, the NetFlow v5 collector and exporter, the W5500
Ethernet MAC driver, the packet rewriting in the network hooks, the access control lists, and
two smaller pieces they rest on (the reservation table, the URL codec). `dafny verify
dfyconfig.toml` checks everything.

Each component has the same shape. A specification module says what one operation does to a
value (`DhcpSpec`, `RingSpec`, `NetFlowSpec`, `W5500Tx`, `W5500RxSpec`, `AclSpec`, the spec
functions of `PacketRewrite`). A class or a set of methods changes fields, arrays and linked
nodes in place, as the C code does, and every method is proved equal to its specification. The
properties are lemmas about the specification: invariants of every run, refinement of a simple
form, round trips, conservation, and, where the code does not keep a property, the exact
condition under which it does.

| files | component |
|---|---|
| `Words`, `Wrappers` | 8-, 16- and 32-bit words over unbounded integers, wrap-around written out; optional values |
| `DhcpAddress`, `DhcpOptions`, `DhcpReply`, `DhcpReplyFields`, `DhcpSpec`, `DhcpMacs`, `DhcpVerdict`, `DhcpPool`, `DhcpCrowding`, `DhcpWidePool`, `DhcpReservations`, `DhcpCollisions`, `LeaseList`, `DhcpServer` | `components/dhcpserver/dhcpserver.c` |
| `DhcpManager` | `main/dhcp_manager.c` |
| `RingSpec`, `RingBuffer`, `RingSignal` | `components/pcap_capture/pcap_ringbuf.c` |
| `Pcap`, `PcapCapture` | `components/pcap_capture/pcap_capture.c` |
| `NetFlowSpec`, `NetFlowExport`, `NetFlowHistory`, `NetFlowTimes`, `NetFlow` | `components/netflow/netflow.c` |
| `W5500Mem`, `W5500Tx`, `W5500TxOrder`, `W5500TxChip`, `W5500TxDriver`, `W5500RxSpec`, `W5500Rx` | `components/eth_w5500/esp_eth_mac_w5500.c` |
| `Checksum`, `PacketSum`, `PacketRewrite`, `PacketFrames` | `main/netif_hooks.c` |
| `AclSpec`, `Acl` | `components/acl/acl.c` |
| `UrlCodec` | `components/http_server/http_server.c`, `components/cmd_router/cmd_router.c` |

Findings, each stated as a lemma:

- The pool invariant of the DHCP server fails for a pool that ends at host byte 255, and only
  for such a pool (`DhcpPool.PoolSafeIff`).
- A pool whose end is natively below its start serves nobody; a 16-bit mask can make the server
  compute one (`DhcpWidePool.ServesIff`, `DhcpAddress.WideMaskReverses`).
- A reserved address past the pool's end is refused, although the comment at
  `components/dhcpserver/dhcpserver.c:1147` says the pool's range does not matter
  (`DhcpReservations.ReservedAboveEnd`).
- Reservations inside the pool make the server lease one address twice unless the reserved
  addresses are the last of the pool, each reserved once (`DhcpCollisions.NoCollisionIff`,
  `SkipCollides`). A reservation below the pool moves the cursor out of the pool, so that the
  next client gets an address outside it (`DhcpReservations.CursorAfterReservation`,
  `ReservationLeavesPool`).
- A configured range whose end is one below its start passes every check of `dhcps_poll_set`
  and leaves an empty pool (`DhcpAddress.EmptyRangeKept`).
- A lease time of zero ticks lasts a full turn of the 32-bit timer (`DhcpMacs.ZeroLeaseLasts`).
  Leases last exactly their lifetime over pools of up to 16 addresses; larger ones have runs in
  which the station limit evicts a lease, unless leases last a single tick
  (`DhcpCrowding.UncrowdedIff`).
- The options of a reply are written into a block of fixed size without a check. A portal URI of
  256 bytes or more is never readable, and a shorter one only if all options fit; with a router
  and two name servers 250 bytes are too many (`DhcpReply.ReadableIff`, `UriOf250Cut`).
- Draining the data-ready semaphore after the ring's mutex is released can lose a wake-up
  (`RingSignal.SplitKeepsIff`, `SplitAllocLosesWakeup`), and a reset while a client streams
  spoils its stream unless the bytes sent end on a record boundary (`Pcap.ResetDecodesIff`).
- The W5500 driver ignores whether its reopening of the socket, its reading of the interrupt
  register and its clearing of SIR_SEND worked. The rule that one SEND is open at a time is
  broken exactly by a timeout after which the chip still sends or SIR_SEND is still up, and by
  taking SIR_SEND that is not there or stays up (`W5500TxOrder.OneSendStepIff`, with the runs
  `StaleTimeoutOverlaps`, `FailedReopenOverlaps` and `MisreadOverlaps`). A SEND command that
  fails on the bus leaves its frame in the chip, in front of the next; frames go out as passed
  exactly when no successful start follows such a one before the memory is cleared
  (`W5500TxChip.AiredIff`, `FailedSendJoins`).
- The incremental checksum of the MSS clamp is right for a value at an even offset of the TCP
  header; at an odd offset exactly when 257 divides the change
  (`PacketRewrite.ClampKeepsChecksumIff`, `OddSynBreaks`). The update rule itself fails for one
  block only, that of zeros (`Checksum.UpdateGoodIff`).

## Model

| member | source | states |
|---|---|---|
| DhcpAddress.LessIsWordOrder | components/dhcpserver/dhcpserver.c:349-381 | the compare the code makes on natively loaded words is the order that weighs the last wire byte most; equal words are equal addresses |
| DhcpAddress.NextIsIncrement | components/dhcpserver/dhcpserver.c:1102-1105 | `htonl`, increment, `htonl` is the successor of the address as a number, with carry and wrap |
| DhcpAddress.PollSetPool | components/dhcpserver/dhcpserver.c:1374-1424 | for every mask, server and configured range: the pool excludes the server, lies in the server's block and has at most 100 addresses; it is a reversed range only when one was configured, and then, under a mask with any network bit, the empty one with end one below start |
| DhcpAddress.ConfiguredKept | components/dhcpserver/dhcpserver.c:1381-1400 | a configured range of at most 100 addresses, all in the server's block and none the server, is left as it is |
| DhcpAddress.OtherReplaced | components/dhcpserver/dhcpserver.c:1381-1400 | any other proper range is replaced by the computed one |
| DhcpAddress.ComputedIsLarger | components/dhcpserver/dhcpserver.c:1402-1422 | the computed pool is the larger side of the server's block, without the block's ends, up to its first 100 addresses |
| DhcpAddress.EmptyRangeKept | components/dhcpserver/dhcpserver.c:1382-1400 | such a range, 192.168.4.10 to 192.168.4.9 for the server 192.168.4.1, passes every check |
| DhcpAddress.SetPoll | components/dhcpserver/dhcpserver.c:1374-1424 | the code's checks and arithmetic compute that pool |
| DhcpAddress.WideMaskReverses | components/dhcpserver/dhcpserver.c:1403-1423 | under a 16-bit mask the range computed for 192.168.0.200 is reversed as the server compares addresses |
| DhcpAddress.DefaultMaskIsOneNet | components/dhcpserver/dhcpserver.c:1374-1424 | under 255.255.255.0 both ends of the pool are in the server's network; a computed pool is not empty and ends below 255 |
| DhcpAddress.PoolRangeAgrees | main/dhcp_manager.c:87-113 | the range shown to the user is the range the server sets for itself |
| DhcpOptions.DecodeEncode | components/dhcpserver/dhcpserver.c:913-1055 | the option walk reads back every option list that was written, whatever follows the end tag |
| DhcpOptions.DecodeWire | components/dhcpserver/dhcpserver.c:925-955 | whatever pads lie between the options, and whether the field ends with the end tag, in an option cut short or at its last byte, exactly the options are read |
| DhcpOptions.EveryField | components/dhcpserver/dhcpserver.c:925-955 | and every string of bytes is such a field |
| DhcpOptions.ScanOptions | components/dhcpserver/dhcpserver.c:913-1055 | the loop over raw bytes (pads, end tag, truncated options) yields the summary of the decoded options |
| DhcpOptions.SummaryIsLast | components/dhcpserver/dhcpserver.c:957-1007 | message type, requested address and host name each come from the last usable option that carries them |
| DhcpOptions.SummaryDefault | components/dhcpserver/dhcpserver.c:957-1007 | a field that no usable option carries keeps its default |
| DhcpOptions.Sanitized | components/dhcpserver/dhcpserver.c:965-990 | the kept host name is cut to 31 bytes, holds only host-name characters, and keeps those that were |
| DhcpOptions.CleanHostname | components/dhcpserver/dhcpserver.c:965-990 | the copying loop computes that host name |
| DhcpReply.Big4Reads | components/dhcpserver/dhcpserver.c:452-457 | a 32-bit number written big-endian reads back |
| DhcpReply.RawIs | components/dhcpserver/dhcpserver.c:427-546 | what the writer lays down has the closed-form size and is the promised options and the end tag, whenever the portal URI fits its length byte |
| DhcpReply.WriteReply | components/dhcpserver/dhcpserver.c:643-655 | the in-place writer, with its cursor, leaves these bytes over what the message left in the field, as far as the field reaches |
| DhcpReply.ReadableIff | components/dhcpserver/dhcpserver.c:643-690 | the field that is sent decodes to the promised options if and only if the portal URI is shorter than 256 bytes and the options have room in the block |
| DhcpReplyFields.ReplySays | components/dhcpserver/dhcpserver.c:429-520 | in a reply that fits, the client reads each option once: type, mask, server, broadcast address, lease time, MTU, and router, name servers and portal URI exactly as the settings have them |
| DhcpReply.CompleteIff | components/dhcpserver/dhcpserver.c:643-690 | and carries the end tag as well if and only if there is room for it too |
| DhcpReply.CutReply | components/dhcpserver/dhcpserver.c:643-690 | without that room the client reads a prefix of the options: all, or fewer |
| DhcpReply.UriOf250Cut | components/dhcpserver/dhcpserver.c:1269-1276 | a 250-byte URI, a router and two name servers, in reply to a message of up to 548 bytes: the reply is cut |
| DhcpReply.LongPortalUnreadable | components/dhcpserver/dhcpserver.c:518-526 | no bytes at all decode to a reply with a URI of 256 bytes or more |
| DhcpMacs.HandleSound | components/dhcpserver/dhcpserver.c:1064-1233 | after any message, with any reservations: MACs distinct; OFFER and ACK only with exactly one lease for the MAC, at yiaddr, with a full timer; after NAK, DECLINE and RELEASE no lease for it |
| DhcpMacs.RequestOutcome | components/dhcpserver/dhcpserver.c:1089-1100 | a REQUEST from a lease holder is ACKed for its own address exactly when it asks for that address, or names it in ciaddr without asking |
| DhcpVerdict.AnswerByOptions | components/dhcpserver/dhcpserver.c:957-1055 | every message that is not refused for its address is answered by its last message type, else its last requested address, else the address it says it has: a DISCOVER with an OFFER, a REQUEST with ACK or NAK, a DECLINE or RELEASE with nothing, and only a DECLINE is remembered; the lease is then there, full and under the name given, or gone |
| DhcpVerdict.RefusedIsNak | components/dhcpserver/dhcpserver.c:1186-1206 | a client whose address is past the pool or 0.0.0.0 gets a NAK for it and has no lease |
| DhcpVerdict.SameAddress | components/dhcpserver/dhcpserver.c:1089-1100 | a client that holds a lease is answered about that address |
| DhcpVerdict.DeclineMovesOn | components/dhcpserver/dhcpserver.c:1071-1087 | when the only client declines, the next is offered the address at the cursor, and after a RELEASE the pool's first |
| DhcpMacs.OthersUntouched | components/dhcpserver/dhcpserver.c:1064-1233 | a message leaves the leases of all other clients, timers and names included, as they were and in order |
| DhcpMacs.AgedMeaning | components/dhcpserver/dhcpserver.c:1578-1609 | a tick's ageing keeps only leases that do not reach zero, in order, each one tick lower |
| DhcpMacs.AgedComplete | components/dhcpserver/dhcpserver.c:1578-1609 | and keeps every lease that does not reach zero |
| DhcpMacs.TickEvicts | components/dhcpserver/dhcpserver.c:1538-1618 | a tick evicts at most one lease, one with the least time left, exactly when the 8-bit count of survivors exceeds the station limit |
| DhcpMacs.RunKeepsMacs | components/dhcpserver/dhcpserver.c:1064-1233 | in every run, with any pool and reservations, no MAC has two leases |
| DhcpMacs.SilentRun | components/dhcpserver/dhcpserver.c:1578-1618 | a lease that a silent client still has is its old one, less exactly the ticks that passed, whatever the others do |
| DhcpMacs.Expires | components/dhcpserver/dhcpserver.c:1578-1618 | in every run a lease not refreshed for its full lifetime in ticks is gone |
| DhcpMacs.Survives | components/dhcpserver/dhcpserver.c:1578-1618 | while no tick counts more leases than the station limit, a silent client keeps its lease, address and name, for all ticks of its lifetime but the last |
| DhcpMacs.LeaseHeldIff | components/dhcpserver/dhcpserver.c:1578-1618 | so it has a lease if and only if the lifetime is not over |
| DhcpMacs.ZeroLeaseLasts | components/dhcpserver/dhcpserver.c:1066-1182 | with a lease time of zero ticks, the lease behind an OFFER or ACK is held if and only if fewer than 2^32 ticks have passed |
| DhcpPool.CandidateFree | components/dhcpserver/dhcpserver.c:1080-1128 | the cursor scan and the first-free scan together yield a free pool address, or one past the pool and then the pool is full |
| DhcpPool.FullRefuses | components/dhcpserver/dhcpserver.c:1159-1162 | and a full pool always yields one past it |
| DhcpPool.HandleKeepsPool | components/dhcpserver/dhcpserver.c:1064-1233 | one message keeps the list strictly increasing, inside the pool, and the cursor inside the pool |
| DhcpPool.RunKeepsPool | components/dhcpserver/dhcpserver.c:1064-1233 | so does every run of messages and ticks without reservations |
| DhcpPool.OrderedMeaning | components/dhcpserver/dhcpserver.c:349-381 | in such a list addresses are strictly increasing as native words |
| DhcpPool.PoolSafeIff | components/dhcpserver/dhcpserver.c:1101-1106 | all runs keep it if and only if the pool ends below host byte 255 |
| DhcpPool.RefusedOnlyWhenFull | components/dhcpserver/dhcpserver.c:1159-1199 | a client without a lease is refused if and only if every pool address is leased; otherwise it gets a free one |
| DhcpWidePool.ServesIff | components/dhcpserver/dhcpserver.c:1117-1162 | whatever the mask, some run without reservations leases an address if and only if the pool's start is not natively past its end |
| DhcpWidePool.ReversedNeverServes | components/dhcpserver/dhcpserver.c:1159-1162 | in a pool reversed in that order every client of every run is refused |
| DhcpCrowding.UncrowdedIff | components/dhcpserver/dhcpserver.c:1578-1618 | without reservations, over a pool in one network ending below 255, no tick of any run finds more leases than the station limit if and only if the pool has at most 16 addresses or leases last a single tick |
| DhcpCrowding.SmallPoolHeldIff | components/dhcpserver/dhcpserver.c:1578-1618 | over such a pool of at most 16 addresses a client that falls silent at any point of any run has its lease if and only if the lease's lifetime is not over |
| DhcpPool.EvictionIsExact | components/dhcpserver/dhcpserver.c:1538-1618 | in a pool of at most 100 addresses the 8-bit count of survivors is the true count |
| DhcpReservations.RunSorted | components/dhcpserver/dhcpserver.c:349-381 | with any reservations every run keeps the list in native order, none past the pool's end |
| DhcpReservations.CandidateUnleased | components/dhcpserver/dhcpserver.c:1080-1128 | for any list in order the candidate before the reservation steps is leased to nobody, if its host byte is not zero, or if the list has no more leases than host bytes lie between the pool's start and 255 |
| DhcpReservations.CandidateLeasedAtZero | components/dhcpserver/dhcpserver.c:1108-1128 | a list whose first-free search carries to host byte zero and a leased address |
| DhcpReservations.SkipStops | components/dhcpserver/dhcpserver.c:1131-1138 | the loop that skips addresses reserved for others ends past the pool or on one reserved for nobody else |
| DhcpReservations.SkipIsFirst | components/dhcpserver/dhcpserver.c:1131-1138 | and it has passed only addresses of the pool that are reserved for others |
| DhcpReservations.CursorMovesOff | components/dhcpserver/dhcpserver.c:1080-1100 | a message from a client with a lease leaves the cursor on no lease in front of the client's, and where it was unless one sat on it |
| DhcpReservations.NeverForeign | components/dhcpserver/dhcpserver.c:1131-1138 | a client without its own reservation is never given an address reserved for another |
| DhcpReservations.ReservedAboveEnd | components/dhcpserver/dhcpserver.c:1141-1162 | a reserved address is refused if and only if it lies past the pool's end |
| DhcpReservations.DistinctWhenUnreserved | components/dhcpserver/dhcpserver.c:1131-1148 | under either of these conditions a message that enters neither reservation branch keeps addresses distinct, whatever is reserved for others |
| DhcpReservations.ReservationCollides | components/dhcpserver/dhcpserver.c:1141-1148 | reserving an address somebody holds makes the next message of the new owner lease it twice |
| DhcpReservations.CursorAfterReservation | components/dhcpserver/dhcpserver.c:1175-1181 | serving a reservation leaves the cursor in the pool if and only if the reserved address is in the pool or just before it |
| DhcpReservations.CursorIsServed | components/dhcpserver/dhcpserver.c:1080-1138 | a cursor no lease sits on, up to the pool's end, is what the next client without a reservation gets |
| DhcpReservations.ReservationLeavesPool | components/dhcpserver/dhcpserver.c:1148-1182 | two messages after the start a client without a reservation is leased an address outside the pool |
| DhcpCollisions.NoCollisionIff | components/dhcpserver/dhcpserver.c:1064-1233 | for a table that maps MACs to addresses of the pool: every run keeps leased addresses distinct if and only if no address is reserved twice and above a reserved address there are only reserved ones |
| DhcpCollisions.RunKeepsOwned | components/dhcpserver/dhcpserver.c:1064-1233 | then every run also keeps the pool invariant, and a reserved address is leased to its owner only |
| DhcpCollisions.CollidingRun | components/dhcpserver/dhcpserver.c:1131-1138 | otherwise new clients, one after the other, lead to a run that leases one address twice |
| DhcpCollisions.SkipCollides | components/dhcpserver/dhcpserver.c:1131-1138 | pool .2 to .5 with .3 reserved: four DISCOVERs are given .2, .4, .5 and again .4 |
| LeaseList.Insert | components/dhcpserver/dhcpserver.c:349-385 | relinks nodes in place so that the chain is the old one with the node before the first greater address |
| LeaseList.Remove | components/dhcpserver/dhcpserver.c:394-419 | unlinks exactly the given node, in place |
| DhcpServer.Dhcps.LookupReservation | main/dhcp_manager.c:226-234 | returns the first valid reservation of the MAC, or 0.0.0.0 |
| DhcpServer.Dhcps.IsReservedForOther | main/dhcp_manager.c:237-247 | true exactly for the addresses reserved for other MACs |
| DhcpServer.Dhcps.SkipForeign | components/dhcpserver/dhcpserver.c:1131-1138 | the in-place loop ends, where the specified skip ends |
| DhcpServer.Dhcps.ClaimLease | components/dhcpserver/dhcpserver.c:1064-1184 | the list walk, both scans and the new node, on linked nodes and fields, do what the specification of a claim says |
| DhcpServer.Dhcps.ParseMsg | components/dhcpserver/dhcpserver.c:1064-1233 | new list, cursors, flags and verdict of a parsed message equal the specification's |
| DhcpServer.Dhcps.HandleDhcp | components/dhcpserver/dhcpserver.c:1332-1366 | so do the new state and the reply sent, for every message, with or without the cookie |
| DhcpServer.Dhcps.KillOldest | components/dhcpserver/dhcpserver.c:1538-1570 | removes the first node with the least time left from the chain |
| DhcpServer.Dhcps.AgeAll | components/dhcpserver/dhcpserver.c:1578-1609 | the in-place decrement-and-remove loop leaves the aged list, and counts survivors modulo 256 |
| DhcpServer.Dhcps.Tmr | components/dhcpserver/dhcpserver.c:1578-1618 | the timer's whole effect is the specified tick |
| DhcpServer.Dhcps.StartServer | components/dhcpserver/dhcpserver.c:1451-1489 | starts exactly when it has a socket and the server is neither end of its block; then the cursor is at the pool's start, the server is not in the pool, the pool is in its block with at most 100 addresses, and a configured range that qualifies is kept; a server that has handled nothing yet is then in the start state of the runs |
| DhcpServer.Dhcps.constructor | components/dhcpserver/dhcpserver.c:161-187 | a new server has no leases, no flags and no configured range |
| DhcpServer.Dhcps.Serve | components/dhcpserver/dhcpserver.c:1332-1618 | messages and ticks one after the other, on the linked nodes and fields, end in the state of the specified run |
| DhcpServer.Session | components/dhcpserver/dhcpserver.c:1451-1489 | so a server made, started and given events is in a state the run theorems speak of |
| DhcpManager.AddLaw | main/dhcp_manager.c:128-171 | adding keeps MACs unique and is one map update; it fails only for a new MAC and a full table |
| DhcpManager.DeleteLaw | main/dhcp_manager.c:173-189 | deleting removes that MAC and changes no other lookup |
| DhcpManager.ClearLaw | main/dhcp_manager.c:210-224 | clearing forgets every MAC |
| DhcpManager.RunUnique | main/dhcp_manager.c:128-224 | in every run of additions, deletions and clearings no MAC comes to be reserved twice |
| DhcpManager.ReservedIsLookup | main/dhcp_manager.c:226-234 | what the server looks up is the table's answer |
| DhcpManager.ForeignIsOthersLookup | main/dhcp_manager.c:237-247 | an address is somebody else's exactly when another MAC's lookup gives it |
| DhcpManager.AddReservation | main/dhcp_manager.c:128-171 | the two loops over the array do that addition in place |
| DhcpManager.DeleteReservation | main/dhcp_manager.c:173-189 | the loop does that deletion in place |
| DhcpManager.ClearReservations | main/dhcp_manager.c:210-224 | every entry invalid, nothing else changed |
| RingSpec.BytesConserved | components/pcap_capture/pcap_ringbuf.c:130-223 | in every run of writes and reads, bytes read followed by bytes queued are the accepted writes, in order |
| RingSpec.AllOrNothing | components/pcap_capture/pcap_ringbuf.c:130-177 | a write is accepted exactly when the ring exists, the mutex is free and there is room; else nothing is queued |
| RingSpec.DropsCounted | components/pcap_capture/pcap_ringbuf.c:137-158 | in every run the drop count grows by exactly the writes refused by a ring that is there |
| RingSpec.SkipSplits | components/pcap_capture/pcap_ringbuf.c:254-270 | a skip takes that many bytes off the front, or all, and changes nothing else |
| RingSpec.TakeSplits | components/pcap_capture/pcap_ringbuf.c:179-223 | a read takes as many bytes as it may off the front and leaves the signal up exactly when bytes remain |
| RingBuffer.WrittenExtends | components/pcap_capture/pcap_ringbuf.c:153-167 | a wrapped write behind a wrapped window extends the window by what was written |
| RingBuffer.WindowDrops | components/pcap_capture/pcap_ringbuf.c:196-212 | moving the wrapped start on drops bytes from the front |
| RingBuffer.RingBuf.Alloc | components/pcap_capture/pcap_ringbuf.c:53-88 | an empty ring of the given size, or no change |
| RingBuffer.RingBuf.Free | components/pcap_capture/pcap_ringbuf.c:94-114 | gives the buffer up and clears every count |
| RingBuffer.RingBuf.Reset | components/pcap_capture/pcap_ringbuf.c:116-128 | empties the queue and keeps the buffer and the signal |
| RingBuffer.RingBuf.Write | components/pcap_capture/pcap_ringbuf.c:130-177 | the two-piece copy into the array is the queue's all-or-nothing append, with the drop count |
| RingBuffer.RingBuf.Read | components/pcap_capture/pcap_ringbuf.c:179-223 | the two-piece copy out of the array is the queue's take |
| RingBuffer.RingBuf.Peek | components/pcap_capture/pcap_ringbuf.c:225-252 | the front of the queue, which is left alone |
| RingBuffer.RingBuf.SkipBytes | components/pcap_capture/pcap_ringbuf.c:254-270 | drops at most that many bytes from the front |
| RingSignal.RunKeeps | components/pcap_capture/pcap_ringbuf.c:170-220 | with the allocation as one step, under every interleaving of writers, reader and control calls: while bytes are queued the signal is up, a writer has yet to give it, or the reader holds it |
| RingSignal.QuiescentReadSucceeds | components/pcap_capture/pcap_ringbuf.c:179-220 | with nobody in between, queued bytes mean the reader's wait ends and it reads some |
| RingSignal.UninterruptedWrite | components/pcap_capture/pcap_ringbuf.c:130-177 | the steps of a write taken together are the queue's write |
| RingSignal.UninterruptedRead | components/pcap_capture/pcap_ringbuf.c:179-223 | the steps of a read taken together are the queue's read |
| RingSignal.SplitKeepsIff | components/pcap_capture/pcap_ringbuf.c:73-84 | with the allocation in two steps, a whole run keeps every wake-up if and only if at each drain nothing was written since its allocation, or fewer gives than accepted writes have happened |
| RingSignal.BytesSince | components/pcap_capture/pcap_ringbuf.c:73-84 | before the drain bytes are queued exactly when some were written since the allocation and not cleared |
| RingSignal.LostStays | components/pcap_capture/pcap_ringbuf.c:179-184 | once lost, the wake-up stays lost until something is written or cleared |
| RingSignal.SplitAllocLosesWakeup | components/pcap_capture/pcap_ringbuf.c:73-84 | the run in which a packet written between the two parts of an allocation goes unnoticed |
| Pcap.RecordReads | components/pcap_capture/pcap_capture.c:278-292 | a record at the front of a stream is read back field by field |
| Pcap.CapturedBytes | components/pcap_capture/pcap_capture.c:278-306 | byte by byte: time, captured length, the packet's own length, and its first bytes up to the snap length |
| Pcap.PrefixDecodes | components/pcap_capture/pcap_capture.c:272-312 | every prefix of a record stream decodes to a prefix of the packets and a rest shorter than the next record |
| Pcap.SessionConserves | components/pcap_capture/pcap_capture.c:181-200 | bytes sent and bytes queued together are the records of the accepted packets, however reads split them |
| Pcap.StreamDecodes | components/pcap_capture/pcap_capture.c:181-200 | what was sent decodes to a prefix of the accepted packets, and to all of them when the ring is empty |
| Pcap.ResetOnBoundary | components/pcap_capture/pcap_capture.c:314-333 | after a reset with the bytes sent ending on a record boundary the stream decodes to the packets sent and then those accepted |
| Pcap.ResetDecodesIff | components/pcap_capture/pcap_capture.c:314-333 | every continuation after a reset decodes so if and only if the bytes sent before it end on a record boundary |
| Pcap.Gather | components/pcap_capture/pcap_capture.c:294-305 | the loop over the chain copies the first bytes of the packet, wherever the links are cut |
| PcapCapture.Capture.CapturePacket | components/pcap_capture/pcap_capture.c:272-312 | one all-or-nothing write of the record with the original length and the first min(length, snaplen) bytes; the counter counts accepted packets; a streaming session takes its offer step |
| PcapCapture.Capture.SetSnaplen | components/pcap_capture/pcap_capture.c:396-405 | only lengths from 64 to the maximum are taken |
| PcapCapture.Capture.SetMode | components/pcap_capture/pcap_capture.c:314-333 | without a server capture cannot be turned on; turning it on clears counter and ring; no other change does |
| PcapCapture.Capture.SendToClient | components/pcap_capture/pcap_capture.c:78-97 | partial sends and retries deliver a prefix, the whole on success |
| PcapCapture.Capture.ServeOnce | components/pcap_capture/pcap_capture.c:181-200 | a turn takes one chunk off the ring and sends it, which is a session's chunk step, or the session ends |
| NetFlowSpec.LookupIsMembership | components/netflow/netflow.c:144-154 | under the invariant the windowed search finds a key exactly where it is active |
| NetFlowSpec.AccountKeepsInv | components/netflow/netflow.c:144-188 | counting a packet keeps every active entry in its own window and no key active twice |
| NetFlowSpec.AccountLaw | components/netflow/netflow.c:234-241 | the packet's key gets the counted flow, an evicted key is gone, every other key looks up as before |
| NetFlowSpec.AccountIsMapUpdate | components/netflow/netflow.c:144-241 | the finite map the table stands for changes by one update after at most one removal |
| NetFlowSpec.BeforeIsEarlier | components/netflow/netflow.c:175 | within 2^31 ms the signed wrapping comparison is the comparison of true times |
| NetFlowSpec.OldestIsOldest | components/netflow/netflow.c:171-178 | the eviction scan settles on an entry whose stored time is oldest, across the clock's wrap |
| NetFlowSpec.VictimIsOldest | components/netflow/netflow.c:171-188 | a flow is thrown out only when its window is full, and it is one whose stored time is oldest in it |
| NetFlowSpec.FnvKnown | components/netflow/netflow.c:130-139 | the hash has a published value |
| NetFlowExport.ExportBatch | components/netflow/netflow.c:283-333 | datagrams of at most 30 records, all but the last full, whose records are the flows in order; each sequence number is the records sent before, modulo 2^32 |
| NetFlowExport.SeriesMeaning | components/netflow/netflow.c:294-306 | every header of a series carries the total of records in earlier datagrams |
| NetFlowExport.SweptKeepsInv | components/netflow/netflow.c:335-370 | a sweep keeps the table invariant, holes and all |
| NetFlowExport.SweptLaw | components/netflow/netflow.c:335-370 | a sweep removes exactly the flows idle or over age by wrapping subtraction; other keys look up as before |
| NetFlowExport.SumSwept | components/netflow/netflow.c:335-370 | packets and bytes in the table before a sweep are those left plus those in the records |
| NetFlowExport.RunConserves | components/netflow/netflow.c:335-370 | in every run packets (and bytes) accounted equal those active, exported and evicted, modulo 2^32, and the two running numbers agree |
| NetFlowHistory.RunTells | components/netflow/netflow.c:232-370 | in every run and for every key, the packets counted under it are, in order, those of its records sent and flows thrown out, in the order in which these left the table, and then those of its flow, which are the ones since it last left; each record, with the key's five fields, and each flow has exactly the number and bytes of its packets, the times of the first and the last, and all their flags |
| NetFlowTimes.FlowIsPackets | components/netflow/netflow.c:232-242 | so a flow in the table sums up the packets of its key since the key was last swept or thrown out |
| NetFlowTimes.SweptIff | components/netflow/netflow.c:341-352 | a sweep takes a flow out if and only if the latest packet of its key is the idle time ago, or the first since the key last left the table the active time, as 32 bits can tell |
| NetFlowTimes.EvictsIff | components/netflow/netflow.c:156-188 | a packet throws a flow out if and only if its key has none and its window is full |
| NetFlowTimes.VictimIsStalest | components/netflow/netflow.c:171-188 | in every run the key thrown out is one whose latest packet is oldest in the window, while these packets lie within 2^31 ms |
| NetFlowTimes.KeyConserves | components/netflow/netflow.c:232-370 | for every key, packets (and bytes) counted under it equal those in its flow, in records with its five fields and in its flows thrown out, modulo 2^32 |
| NetFlowTimes.LogIsSent | components/netflow/netflow.c:308-325 | the records among a run's exits are the records sent, in order |
| NetFlow.Fnv1a | components/netflow/netflow.c:130-139 | the loop computes FNV-1a of the key's bytes |
| NetFlow.Exporter.FindOrCreate | components/netflow/netflow.c:144-188 | the three passes over the array choose the specified slot and leave all other slots alone |
| NetFlow.Exporter.AccountPacket | components/netflow/netflow.c:232-242 | the table after a packet is the specified one, or unchanged when filtered or the mutex is taken |
| NetFlow.Exporter.CollectExpired | components/netflow/netflow.c:335-352 | collects exactly the expired slots, in table order |
| NetFlow.Exporter.SweepAndExport | components/netflow/netflow.c:335-370 | exports the expired flows in order, deactivates exactly them, advances both running numbers |
| NetFlow.Exporter.ExportTurn | components/netflow/netflow.c:372-380 | an enabled turn sends the expired flows' records in order in a series of datagrams and sweeps them; otherwise nothing happens; sequence number and exported count stay equal |
| NetFlow.Exporter.Serve | components/netflow/netflow.c:232-380 | packets and sweeps one after the other, on the array, leave the table, the numbers and the records of the specified run |
| W5500Tx.RunConserves | components/eth_w5500/esp_eth_mac_w5500.c:731-773 | in every interleaving of sender, driver and chip each of the four buffers is in exactly one place, and an active buffer means a taken semaphore |
| W5500Tx.QueueSendsFit | components/eth_w5500/esp_eth_mac_w5500.c:770-1028 | no queue send ever finds its queue full |
| W5500TxOrder.LineStep | components/eth_w5500/esp_eth_mac_w5500.c:745-1033 | every step leaves the line of calls as it is, appends the new call, or drops one call that is given up |
| W5500TxOrder.RunOrdered | components/eth_w5500/esp_eth_mac_w5500.c:745-1033 | in every run each call is in the line once, in call order, or lost, never both |
| W5500TxOrder.RunFaithful | components/eth_w5500/esp_eth_mac_w5500.c:769-771 | in every run each queued or sent frame holds the bytes of its call: no buffer is overwritten while a frame lies in it |
| W5500TxOrder.SentIsSubsequence | components/eth_w5500/esp_eth_mac_w5500.c:745-1033 | the chip is sent a subsequence of the calls' frames in call order, over the inline and the queued path together |
| W5500TxOrder.NeverStuck | components/eth_w5500/esp_eth_mac_w5500.c:760-1030 | past a wait each thread always has an enabled step |
| W5500TxOrder.OneSendStepIff | components/eth_w5500/esp_eth_mac_w5500.c:948-1014 | a step keeps the one-open-SEND discipline if and only if it is not a mistaken one: a timeout after which the chip still sends or SIR_SEND is up, or SIR_SEND taken while the chip sends, while nothing is open, or without coming down |
| W5500TxOrder.SendWaitsForLast | components/eth_w5500/esp_eth_mac_w5500.c:745-1033 | in runs without mistaken steps a SEND is issued only when the last was seen complete or timed out and nothing is in flight or unread |
| W5500TxOrder.RunAccounted | components/eth_w5500/esp_eth_mac_w5500.c:745-1033 | in every run the taken semaphore is accounted for: a SEND is open, or the task is about to give it or to send |
| W5500TxOrder.FreeIff | components/eth_w5500/esp_eth_mac_w5500.c:745-1033 | in runs without mistaken steps it is free exactly when no SEND is open and the task does not hold it |
| W5500TxOrder.StaleTimeoutOverlaps | components/eth_w5500/esp_eth_mac_w5500.c:955-1014 | a run in which a timeout leaves SIR_SEND up, and a SEND can be issued while the chip still sends
| W5500TxOrder.FailedReopenOverlaps | components/eth_w5500/esp_eth_mac_w5500.c:407-1014 | a run in which a timeout whose reopening fails leads to the same
| W5500TxOrder.MisreadOverlaps | components/eth_w5500/esp_eth_mac_w5500.c:948-962 | a run in which an interrupt register read wrongly leads to the same |
| W5500TxChip.TxChip.StartTx | components/eth_w5500/esp_eth_mac_w5500.c:704-729 | over the circular transmit memory and its 16-bit pointers: sends exactly when there is room, at once or after reopening the socket, and every transfer works; the bytes then on the air, and those left in the memory after any failure, are stated |
| W5500TxChip.HealthySends | components/eth_w5500/esp_eth_mac_w5500.c:704-729 | when every transfer works and reopening empties the memory, every frame that fits the memory is sent, alone or behind what was left |
| W5500TxChip.UnhealthyDoesNot | components/eth_w5500/esp_eth_mac_w5500.c:704-729 | and nothing is sent without room or past a failed transfer |
| W5500TxChip.FailedSendJoins | components/eth_w5500/esp_eth_mac_w5500.c:716-728 | a SEND command that fails after TX_WR has moved leaves its frame behind, and the next goes out joined to it
| W5500TxChip.LeftIff | components/eth_w5500/esp_eth_mac_w5500.c:704-729 | over any sequence of starts, completions and reopenings bytes lie in the memory if and only if some start put them there and nothing cleared it since
| W5500TxChip.AiredIff | components/eth_w5500/esp_eth_mac_w5500.c:704-729 | and what was aired is the frames recorded as sent if and only if no successful start follows one that put bytes into the memory without a completion or an emptying reopening between, its own included |
| W5500TxDriver.Emac.StartFrame | components/eth_w5500/esp_eth_mac_w5500.c:704-729 | the chip does what a start does, and the driver's record follows it: a frame sent, SIR_SEND and the sending as a reopening left them |
| W5500TxDriver.Emac.Transmit | components/eth_w5500/esp_eth_mac_w5500.c:731-773 | the function, uninterrupted, takes exactly the listed steps of the machine: too long, inline, inline refused (after a reopening or not), or queued; the chip is touched on the inline path alone |
| W5500TxDriver.Emac.SendDone | components/eth_w5500/esp_eth_mac_w5500.c:955-963 | taking SIR_SEND, as it was read and whether or not clearing it works, is the listed steps |
| W5500TxDriver.Emac.CheckTimeout | components/eth_w5500/esp_eth_mac_w5500.c:1005-1014 | the timeout check is the listed steps, whatever the ignored reopening did: the memory is emptied, SIR_SEND cleared and the chip stopped, or not |
| W5500TxDriver.Emac.StartNext | components/eth_w5500/esp_eth_mac_w5500.c:1019-1033 | starting the next queued frame is the listed steps, and the chip does what a start of that frame's buffer does |
| W5500TxDriver.Emac.TaskTurn | components/eth_w5500/esp_eth_mac_w5500.c:955-1034 | a whole turn of the driver's loop, as far as it transmits, is those steps in order; if a frame was started, what goes on the air is the front queued frame's buffer behind what was left in the memory, and nothing otherwise |
| W5500TxDriver.PartsKeep | components/eth_w5500/esp_eth_mac_w5500.c:731-1034 | so either part, run on a reachable state, leaves every buffer held once and all frames whole
| W5500TxDriver.FrameOutcome | components/eth_w5500/esp_eth_mac_w5500.c:731-773 | a frame passed is given up if too long, sent at once if it is short and aligned with nothing under way and the chip takes it, else queued whole in a free buffer, or given up without one |
| W5500TxDriver.TurnSends | components/eth_w5500/esp_eth_mac_w5500.c:955-1033 | a turn that takes SIR_SEND and whose start succeeds sends the front of the queue |
| W5500TxDriver.RecordKeptIff | components/eth_w5500/esp_eth_mac_w5500.c:704-729 | one more frame sent: what is on the air stays the frames recorded if and only if the memory was empty or the start's reopening emptied it |
| W5500RxSpec.TurnKeeps | components/eth_w5500/esp_eth_mac_w5500.c:969-997 | one pass passes up or drops whole frames only; if it is the last, frames left behind have SIR_RECV up, and all frames present at its start are taken |
| W5500RxSpec.LoopRests | components/eth_w5500/esp_eth_mac_w5500.c:969-997 | the drain loop, with frames arriving at any of its moments, ends with that and has taken at least every frame there at its start |
| W5500RxSpec.RunRests | components/eth_w5500/esp_eth_mac_w5500.c:965-998 | in every run the frames passed up are frames heard, whole, once and in order, and no frame waits without SIR_RECV |
| W5500RxSpec.DrainSirIff | components/eth_w5500/esp_eth_mac_w5500.c:965-998 | after a drain SIR_RECV is up if and only if a frame was stored during it |
| W5500RxSpec.RunSirIff | components/eth_w5500/esp_eth_mac_w5500.c:965-998 | and in every run if and only if one was stored since the last interrupt was taken |
| W5500RxSpec.LoopDropsOnlyLong | components/eth_w5500/esp_eth_mac_w5500.c:969-997 | while memory lasts only frames over the maximum are dropped |
| W5500Mem.PosAdd | components/eth_w5500/esp_eth_mac_w5500.c:813-865 | 16-bit pointer arithmetic and 14-bit memory positions wrap together |
| W5500Rx.FrontInMemory | components/eth_w5500/esp_eth_mac_w5500.c:786-791 | through the wrapping pointer the front frame's length and bytes are read whole |
| W5500Rx.Advance | components/eth_w5500/esp_eth_mac_w5500.c:813-865 | past the front frame the memory holds exactly the other frames |
| W5500Rx.Emac.AllocRecvBuf | components/eth_w5500/esp_eth_mac_w5500.c:775-811 | nothing for an empty chip; else the front frame's length, offset and snapshot, or the right error |
| W5500Rx.Emac.Receive | components/eth_w5500/esp_eth_mac_w5500.c:813-865 | returns the front frame's bytes, takes it off the chip whole, and sets `packets_remain` from the snapshot |
| W5500Rx.Emac.ReceiveSized | components/eth_w5500/esp_eth_mac_w5500.c:813-865 | with the caller's own buffer: nothing when no frame waits; else the frame is cut to the buffer and leaves the chip whole |
| W5500Rx.Emac.Flush | components/eth_w5500/esp_eth_mac_w5500.c:867-895 | drops the front frame whole and sets `packets_remain` from its own snapshot |
| W5500Rx.Emac.Pass | components/eth_w5500/esp_eth_mac_w5500.c:969-996 | one pass over the circular memory, with arrivals in between, is the specified pass |
| W5500Rx.Emac.Drain | components/eth_w5500/esp_eth_mac_w5500.c:965-998 | the loop ends and does what the specified drain does |
| Checksum.FoldLoop | main/netif_hooks.c:219-222 | the fold loop ends, stays within 32 bits and computes the fold |
| Checksum.FoldCong | main/netif_hooks.c:219-222 | the fold is congruent modulo 65535, fits 16 bits, and is zero only for zero |
| Checksum.UpdateWord | main/netif_hooks.c:216-223 | the update of RFC 1624, every intermediate sum within 32 bits |
| Checksum.UpdateKeepsGood | main/netif_hooks.c:213-223 | with any nonzero word beside the two, the block is valid after the update if and only if it was before |
| Checksum.UpdateGoodIff | main/netif_hooks.c:213-223 | over every valid block the update yields a valid one unless nothing but zeros would be left and the two old words sum to all ones |
| Checksum.UpdateSwaps | main/netif_hooks.c:208-223 | loading, updating and storing in either byte order writes the same bytes |
| PacketSum.PatchEven | main/netif_hooks.c:370-382 | bytes of a word at an even place and the checksum replaced: valid if and only if valid before |
| PacketSum.PatchOdd | main/netif_hooks.c:370-382 | at an odd place: still valid if and only if 257 divides the change |
| PacketRewrite.OverrideTtl | main/netif_hooks.c:201-226 | the guards and the in-place rewrite give the specified frame |
| PacketRewrite.TtlSets | main/netif_hooks.c:208-223 | the TTL byte is set and only it and the checksum change |
| PacketRewrite.TtlKeepsChecksum | main/netif_hooks.c:201-226 | the IP header, options included, is valid after the override if and only if it was before |
| PacketRewrite.WalkOptions | main/netif_hooks.c:359-386 | the option walk stays within the header and finds what the specification finds |
| PacketRewrite.WalkFinds | main/netif_hooks.c:359-386 | for every proper option list it finds the first MSS option |
| PacketRewrite.ClampTcpMss | main/netif_hooks.c:335-387 | every guard, the walk and the in-place rewrite give the specified frame |
| PacketRewrite.ClampSets | main/netif_hooks.c:368-382 | the option carries the lesser of its value and the limit; only it and the checksum change |
| PacketRewrite.ClampTwice | main/netif_hooks.c:335-387 | clamping a clamped frame changes nothing |
| PacketRewrite.ClampKeepsChecksumIff | main/netif_hooks.c:368-382 | a valid segment stays valid if and only if nothing was clamped, the value stands at an even place, or 257 divides the change |
| PacketRewrite.OddSynBreaks | main/netif_hooks.c:359-382 | a SYN with one NOP before an MSS of 1460, clamped to 1360, loses its valid checksum |
| PacketFrames.ComposedSyn | main/netif_hooks.c:335-358 | in any frame composed of an Ethernet header, an IPv4 header of 5 to 15 words and a TCP header of any flags and options, the segment is found exactly if the SYN flag is set |
| PacketFrames.ComposedClamped | main/netif_hooks.c:335-387 | its first MSS option then carries the lesser of its value and the limit, with nothing else but the checksum changed; without the flag or the option nothing is |
| PacketFrames.FindMssIff | main/netif_hooks.c:359-386 | the walk finds a value if and only if proper options, none of them MSS, and the MSS option lie before it, whatever follows |
| PacketFrames.ClampChangesIff | main/netif_hooks.c:335-387 | any frame at all is changed if and only if it is an IPv4 TCP segment, within its bounds, with the SYN flag and a first MSS option above the limit |
| PacketFrames.ComposedTtl | main/netif_hooks.c:201-226 | every IPv4 frame, however long its header, leaves with the TTL set and nothing else but the checksum changed |
| PacketFrames.TtlChangesOnly | main/netif_hooks.c:201-207 | no other frame is changed |
| AclSpec.AddAppends | components/acl/acl.c:151-193 | adding appends to the rule sequence, or changes nothing when it is full |
| AclSpec.DeleteRemoves | components/acl/acl.c:195-224 | deleting with compaction removes one rule and keeps the order of the others |
| AclSpec.CheckInTable | components/acl/acl.c:301-368 | checking the table is checking the sequence, hits included |
| AclSpec.RunRefines | components/acl/acl.c:123-224 | after every run of operations the table is gap-free and holds the rule sequence |
| AclSpec.RunSays | components/acl/acl.c:123-368 | in every run the rules say what was added and not deleted; checks and the clearing of counters change no rule |
| AclSpec.HitsCounted | components/acl/acl.c:340-341 | over any packets a rule's hit count grows by exactly the packets it decides |
| AclSpec.StoredMatches | components/acl/acl.c:177-189 | a stored, pre-masked rule matches exactly the packets that agree with the given addresses in every mask bit, and with protocol and ports; its action and monitor bits are those given |
| AclSpec.HookIsFirstMatch | main/netif_hooks.c:182-199 | the hook drops and monitors as the first matching rule says, and skipping an empty list changes no verdict |
| AclSpec.OneCounter | components/acl/acl.c:344-368 | a checked packet bumps exactly one of the three counters, the one of its verdict |
| Acl.Lists.Add | components/acl/acl.c:151-193 | the array after `acl_add` is the specified table; other tables are unchanged |
| Acl.Lists.Delete | components/acl/acl.c:195-224 | the compaction loop in place gives the specified table; true exactly for a valid rule |
| Acl.Lists.Clear | components/acl/acl.c:123-133 | the table is empty and the others unchanged |
| Acl.Lists.ClearStats | components/acl/acl.c:135-149 | counters and hits are zero, rules and other tables unchanged |
| Acl.Lists.IsEmpty | components/acl/acl.c:88-104 | true exactly when no slot holds a rule |
| Acl.Lists.GetCount | components/acl/acl.c:106-121 | the number of slots that hold a rule |
| Acl.Lists.CheckRules | components/acl/acl.c:301-368 | the loop returns the first match's verdict, counts its hit and the list's counter, and touches nothing else |
| UrlCodec.DecodeEncode | components/http_server/http_server.c:2547-2568 | decoding undoes encoding for every byte string |
| UrlCodec.PlainIsUnreserved | components/http_server/http_server.c:2553-2562 | exactly the unreserved characters stand for themselves, and others for a percent sign and two upper-case digits |
| UrlCodec.DecodeDigits | components/cmd_router/cmd_router.c:156-165 | a percent sign and two hexadecimal digits of either case are decoded to their byte |
| UrlCodec.DecodeOther | components/cmd_router/cmd_router.c:166-170 | a plus to a blank, and any other byte, a percent sign without two digits too, to itself |
| UrlCodec.FitsIsLongest | components/http_server/http_server.c:2552-2566 | what is written is the longest prefix whose encoding has room |
| UrlCodec.TruncatedRoundTrip | components/cmd_router/cmd_router.c:150-173 | a truncated encoding decodes to that prefix, and to all of it exactly when the encoding and its terminator fit |
| UrlCodec.UrlEncode | components/http_server/http_server.c:2547-2568 | the loop fills the buffer with that encoding and terminates it inside the buffer |
| UrlCodec.Preprocess | components/cmd_router/cmd_router.c:150-173 | decoding in place behind the read position gives the decoded string |

## Left out

- Sockets, SPI transfers, NVS, GPIO, clocks and `malloc`: parameters of the methods (`granted`, `free`, `spi`, `now`, the results of `send`), or not modelled.
- Failure of `mem_calloc` in the DHCP server, the `LWIP_HOOK_*` hooks and debug output: not modelled.
- DHCP server stop, settings changed while it runs, DNS settings and the lease callback; the fixed part of replies (xid, chaddr, flags): not modelled. Messages are taken as already gathered from the pbuf chain, with the length check of `components/dhcpserver/dhcpserver.c:1245-1330` passed.
- DhcpPool.RunKeepsPool: needs a pool in one /24 and no reservations, because the code does not keep distinct addresses or a cursor in the pool otherwise (`DhcpCollisions.NoCollisionIff`, `DhcpReservations.CursorAfterReservation`).
- DhcpCollisions.NoCollisionIff: needs reservations inside the pool, because one outside it takes the cursor out of the pool.
- DhcpReply.WriteReply: bytes past the end of the block are written by the code too; what they land on is not modelled. Messages of more than 32767 bytes, whose length is negative in the code's 16 bits, and the `LWIP_HOOK_DHCPS_POST_APPEND_OPTS` hook are not modelled.
- DhcpServer.Dhcps.LookupReservation: the table holds MAC, address and validity; device names and the isolation flag are not modelled.
- RingBuffer.RingBuf.Alloc: takes the drain of the semaphore as part of the call; `RingSignal` takes the two apart.
- RingBuffer.RingBuf.Write: a ring of size zero takes no write of zero bytes and no skip, because the code divides by the size. `RingSignal.SplitKeepsIff` is about runs without skips, which the program does not make.
- The PCAP global header and the accept loop: not modelled; `Pcap.StreamDecodes` and `ResetDecodesIff` are about the records that follow the header.
- NetFlow packet header parsing, configuration and NVS: the model starts from the flow key.
- NetFlow.Exporter.SweepAndExport: one step, although the program formats records outside its lock; packets accounted during a sweep are not modelled.
- W5500Tx.RunConserves: the inline path from taking the semaphore to SEND is one step, and one thread transmits; at finer grain a stale start time could let the timeout give the semaphore away in between. The machine is on values because the two threads interleave; `W5500TxDriver` has the same code as methods that change fields, uninterrupted.
- W5500TxOrder.SendWaitsForLast: needs runs without mistaken steps, because of `StaleTimeoutOverlaps`, `FailedReopenOverlaps` and `MisreadOverlaps`. What a reopening does to the chip (stop it, take SIR_SEND down, empty its memory, report success) is a parameter.
- W5500TxDriver.Emac.TaskTurn: without the reopening after a register reset is detected (`components/eth_w5500/esp_eth_mac_w5500.c:936-943`), which is a step of the machine.
- W5500TxChip.TxChip.StartTx: a transfer that fails is taken not to change the chip; that SEND takes everything between the chip's pointer and TX_WR, and that a reopening that empties the memory makes the two equal, is the chip's behaviour as modelled.
- W5500Rx.Emac.Drain: frames have at least 60 bytes and SPI never fails; with a corrupt length `packets_remain` may stay stale. The maximum of 1522 bytes is ETH_MAX_PACKET_SIZE of ESP-IDF, which is not part of this model.
- PacketRewrite.ClampKeepsChecksumIff: the segment starts at the header length the packet claims; the code does not require it to be at least 20 bytes.
- The ICMP error sender, LAN isolation, client statistics and port mapping in the hooks: not modelled.
- ACL packet header parsing and deny logging with its rate limit: the model starts from addresses, protocol and ports.
- W5500 register setup, PHY, multicast filters, `main/portmap.c` and `main/vpn_manager.c`, web pages and command parsing: not modelled.
