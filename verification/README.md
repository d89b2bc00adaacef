# Verified model of the devcore networking stack

This project models the protocol core of the repository in Dafny and proves what it is for:

- **RUDP**, the reliable transport: two endpoints over a network that loses, repeats and reorders
  frames deliver, in order and without gaps, exactly a prefix of what was sent; the windows of both
  sides agree; what arrives is acknowledged in time; no reachable open state is stuck, even if all that
  was sent is lost; timers and estimators stay in bounds.
- **NAT punch**: the PUNCH/ACK handshake falls silent, and then both sides are ACTIVE unless a node
  that added its peer never punched; each node holds the address it last heard its peer from.
- **Encrypted stream**: only a handshake that verifies changes a session, so the ends are paired exactly
  when each last answered one; the session composed with RUDP gives exactly the plaintexts up to the
  first refused ciphertext.
- **Wire format and CRC-32**: three serializers agree, decoding undoes them, short bursts are caught.
- **Containers**: hash table, ring queue and dynamic array refine a map, a FIFO and a sequence.
- **HTTP/1.1, query parameters, gossip store**: print/parse and streaming laws, decoding laws,
  max-version merge.

## Layout

| files | contents |
|---|---|
| `Types.dfy` | bytes, 32-bit words with wrap-around and signed difference, packets |
| `RudpSpec.dfy`, `RudpConnection.dfy` | the connection on values, and the class whose methods are proved equal to it |
| `RudpReorder.dfy`, `RudpPending.dfy` | what reordering, acknowledgements and time-outs do to the containers |
| `RudpSystem.dfy` | two endpoints and the network as a transition system |
| `RudpSafety.dfy`, `RudpTheorems.dfy` | the invariant, and the safety theorems over every run |
| `RudpProgress.dfy`, `RudpTiming.dfy`, `RudpAcks.dfy` | draining schedules; estimator, threshold and time-out bounds; when acknowledgements go out |
| `Peers.dfy`, `PunchProtocol.dfy`, `PunchLoss.dfy`, `PunchAddresses.dfy` | the peer table with its handlers; the handshake of two nodes; the same with losses; the addresses it teaches |
| `Crc.dfy`, `Wire.dfy`, `Bursts.dfy` | the checksum; serializers, deserializer and relay; which changed frames are accepted |
| `E2ee.dfy`, `SecureStream.dfy` | the session; the session over RUDP |
| `HashTable.dfy`, `RingQueue.dfy`, `DynArray.dfy` | the containers |
| `Gossip.dfy`, `Query.dfy` | the gossip store; the query-parameter decoder |
| `HttpParse.dfy`, `HttpPrint.dfy`, `HttpTheorems.dfy`, `HttpMessages.dfy` | the parsers; the printers; the laws between them; what the parsers make of every message of good fields |

`dafny verify dfyconfig.toml` checks everything.

## How to read it

Code that updates objects in place is a class (or a method with loops) whose `ensures` give the whole new
state as a specification function of the old one; the laws are then proved about those functions. Everything
about whole runs is stated over arbitrary finite traces.

**RUDP.** The network is the set of all frames ever sent, so any of them may arrive at any later time, any
number of times or never. A step is one call of send, receive or the time-out sweep, or the arrival of one
frame; steps of the two ends interleave freely, with arbitrary clock readings. Sequence numbers are 32-bit
with the source's plain comparisons and its signed difference. The safety theorems hold for fewer than 2^32
- 129 sends per direction (`MAX_SENDS`), which contains the 2^31 range; only the last clause of
`WindowsAgree`, about the signed difference, asks for at most 2^31. `StaleFrameMistaken` shows why a bound
is needed. `EveryRunRecoversFromLoss` is the progress theorem that needs retransmission: it starts from an
empty network. The back-off `avg * (1.5 + n)` is computed exactly as an integer half. Timing theorems about
closing assume only that the clock read by one endpoint's sweeps does not run backwards.
`EveryRunDrainsHearingOnce` needs no repeated frame, because an expected frame heard late enough is
acknowledged at once.

**Punch.** Messages in flight are multisets; each is delivered once, in any order. Starting a node adds its
peer once; after that it may punch any number of times, not only once. `QuietMeansActive` is an equivalence:
the one quiet state without convergence is a node that added its peer and has not punched. `PunchLoss` adds
losses: a node that is ACTIVE acknowledges nothing any more, so losing its last ACK leaves the other one
short of ACTIVE for good, and `LossBlocksExactly` says that nothing else does. Each delivered PUNCH comes
with the address it was received from, which is arbitrary; a node records where its own messages go
(`sentTo`).

**Encrypted stream.** The crypto library is a record of arbitrary functions; what is assumed of it are the
predicates `AeadWorks` (section 2.8 of RFC 8439), `KxWorks`, `SigWorks` and `NonceBinds`, each named where
it is used and shown consistent together. A node must answer the peer's handshake after sending its own
half, because sending resets a finished session; `PairedExactly` says so for every exchange. In it any
handshake may arrive at any time; the one thing excluded is a forgery (`Unforged`), a message that verifies
under the peer's key and carries another public half. `e2ee_encrypt` advances its counter without looking at
the send window, so a ciphertext that `rudp_conn_send` refuses leaves a gap the hearer never gets past. So
does a payload received while the hearer's session is not ended, as after a handshake offered in mid-stream.
`HeardIsExact` describes every run, with both; `RefusalIsFatal`, `OfferMidStreamIsFatal`, `LossIsForever`
and `SomeRunLosesTheStream` are about the gap. Nonce uniqueness and the size law assume nothing of it:
`NoncesNeverRepeat` holds for any AEAD. 64-bit counters bound the theorems to fewer than 2^64 encryptions.

**CRC and wire.** The checksum is the reflected CRC-32 of section 8 of RFC 1952. Host byte order is a
parameter of every codec, so all laws hold on both. Whether a changed frame is accepted depends on the
difference alone (`AcceptanceIsPattern`). A four-byte burst is always caught exactly when it lies wholly
inside or wholly outside the checksum field; `CaughtExactly` carries an undetected burst for each of the six
other positions. The size field is never compared with the bytes received (`SizeIsUnchecked`), while
`udp_copy_pack` copies by it (`CopyStaysInside`).

**Hash table.** `HT_SHRINK_THRESHOLD` is the integer 0 its definition evaluates to, and `HT_SUCCESS` and
`HT_NOT_FOUND` are the same number, so a caller of `ht_erase` cannot tell whether the key was there. The
hash is any function of the key.

**HTTP.** The header parser gets a span without the final line break, so the last header line is never
stored (`LinesSkipLast`). A POST without extra headers thus loses its Content-Length and body, and
`RequestRoundTrip` states exactly when the body comes back; `ResponseFieldsRecovered` and
`RequestFieldsRecovered` say which fields do. `RequestParsed` and `ResponseParsed` are about messages that
need not come from the printers: any first line, any fields the header parser can store (`GoodField`), the
length in any mixture of cases. A head longer than 8192 bytes parses when it arrives whole and is rejected
when it arrives in pieces, so streaming is exact precisely up to that size.

**Gossip packets.** `gossip_from_packet` compares an offset counted after the four-byte count with the whole
size, and copies each record before the test. The model keeps both; what lies in memory behind the packet is
a parameter, and the lemmas state exactly when a record comes from there.

**Query names.** The scanner compares raw text, so a name containing `&` can match across segments;
`ScanIsFirstValueExactly` gives the condition.

## Model

| member | source | states |
|---|---|---|
| RudpTheorems.DeliveryIsPrefix | code/devcore/rudp/src/connection.c:113-148 | In every run over a network that loses, repeats and reorders frames, what the receiver has delivered is a gap-free, repeat-free prefix of what `rudp_conn_send` accepted at the other end, in both directions. |
| RudpTheorems.DeliveryGrows | code/devcore/rudp/src/connection.c:255-273 | At both ends and in every run, however many sends it has: a delivered packet is never withdrawn, changed or moved later. |
| RudpTheorems.WindowIsExact | code/devcore/rudp/src/connection.c:117-146 | At every moment of every run `current_seq` is the number of accepted packets, and while open the pending numbers are exactly [highest ack + 1, current_seq), at most 128, one entry each. |
| RudpTheorems.WindowsAgree | code/devcore/rudp/src/connection.c:217-224 | A DATA frame sent at any earlier moment, looked at at any later one, is dropped by the window test exactly when it is already delivered; it never lies 128 or more ahead, so the too-far drop never loses a frame. |
| RudpTheorems.NothingForgotten | code/devcore/rudp/src/dispatcher.c:333-358 | While the sender is open every assigned number is still pending, or the very packet accepted under it is delivered at the peer. |
| RudpTheorems.NothingOverdue | code/devcore/rudp/src/dispatcher.c:277-283 | Between handler steps the expected packet sits neither among the parked frames nor in the reorder buffer, although reordering runs only when the expected number itself arrives. |
| RudpTheorems.StaleFrameMistaken | code/devcore/rudp/src/connection.c:217-220 | Why the theorems are bounded: a delivered frame passes the window test as if it were a future one exactly when it lies at least 2^32 - 128 numbers back. |
| RudpTheorems.RunsMirror | code/devcore/rudp/src/connection.c:12-63 | Exchanging the two endpoints turns every run into a run, so each one-direction theorem holds in the other direction too. |
| RudpTheorems.RecvTakesFront | code/devcore/rudp/src/connection.c:150-155 | A receive call hands over the front of the delivery queue and takes exactly that off; it reports closed exactly when closed, and an empty queue exactly when that is empty. The runs take the packet the call returns. |
| RudpTheorems.SendRefusedExactly | code/devcore/rudp/src/connection.c:113-148 | In every run a send fails as not connected exactly when closed, and would block exactly when 128 packets are accepted and not acknowledged. |
| RudpTheorems.AlwaysAddressed | code/devcore/rudp/src/dispatcher.c:264-392 | In every run every ack ever on the wire runs from one end to the other, carries no payload, and each end's next number is the count of what it accepted. |
| RudpTheorems.FinNamesTheEnds | code/devcore/rudp/src/connection.c:65-109 | At every moment the FIN that closing would send carries the number after the last accepted packet, from this end to the other. |
| RudpSafety.RunKeepsInv | code/devcore/rudp/src/dispatcher.c:264-392 | The safety invariant (history, pending list, window, buffer, genuine frames, acks never ahead of delivery) holds in both directions at the end of every run. |
| RudpSafety.StepKeepsInv | code/devcore/rudp/src/dispatcher.c:264-392 | Any single enabled step at either end (send, receive, time-out sweep, arrival of any frame ever sent) keeps that invariant. |
| RudpSafety.SenderStep | code/devcore/rudp/src/dispatcher.c:333-358 | A step at the sending end keeps one direction, including frames it puts on the wire, and never rewrites its history. |
| RudpSafety.ReceiverStep | code/devcore/rudp/src/dispatcher.c:267-331 | A step at the receiving end keeps one direction and only extends what it delivered; an ack it emits never exceeds that. |
| RudpProgress.StaleIsAcked | code/devcore/rudp/src/dispatcher.c:281-313 | Hearing the lowest pending frame again after it was delivered always provokes an ack that covers it. |
| RudpProgress.AckShrinks | code/devcore/rudp/src/dispatcher.c:333-358 | Hearing that ack makes the pending list strictly shorter and keeps the sender open. |
| RudpProgress.Shrinks | code/devcore/rudp/src/dispatcher.c:277-358 | From every invariant state with an open sender and something unacknowledged, the lowest frame delivered once (if the peer already had it) or twice (if not), then one ack, strictly shrinks the pending list. |
| RudpProgress.Drains | code/devcore/rudp/src/dispatcher.c:277-358 | A schedule of at most three arrivals per pending packet empties the list, leaves the sender open, and leaves the peer with every accepted packet delivered. |
| RudpProgress.EveryOpenRunDrains | code/devcore/rudp/src/dispatcher.c:277-358 | The same from the last state of every run: no reachable open state is stuck. |
| RudpProgress.SweepReemits | code/devcore/rudp/src/connection.c:291-323 | With every frame ever sent lost and no packet at the cap, one sweep late enough for all puts every pending frame back on the wire and keeps the sender open. |
| RudpProgress.SweepCloses | code/devcore/rudp/src/connection.c:299-312 | That condition is exact: a sweep closes an open connection if and only if some pending packet is at the cap. |
| RudpProgress.EveryRunRecoversFromLoss | code/devcore/rudp/src/connection.c:280-326 | From the last state of every run with an open sender and no packet at the cap: even if everything sent so far is lost, one sweep, however late, and then only frames emitted from it on, drain the sender and deliver all it accepted. |
| RudpAcks.DataIsAcknowledged | code/devcore/rudp/src/dispatcher.c:281-313 | After any DATA frame, in any state: if anything was delivered, an ack was sent, fewer frames than the threshold have been taken since, and less time than half the average and than the ack time-out has passed. |
| RudpAcks.AcksExactly | code/devcore/rudp/src/dispatcher.c:281-313 | An ack goes out if and only if something was delivered and the frame was not the expected one, or none was sent yet, or the threshold is reached, or one of the two timers has run out. |
| RudpAcks.AlwaysAcknowledged | code/devcore/rudp/src/dispatcher.c:281-313 | At both ends, at every moment of every run: if anything was delivered, an ack was sent, and fewer frames than the threshold have been taken since. |
| RudpAcks.InOrderIsAcked | code/devcore/rudp/src/dispatcher.c:288-313 | The expected frame, heard at least the ack time-out after the last ack, provokes an ack that covers it. |
| RudpAcks.ShrinksHearingOnce | code/devcore/rudp/src/dispatcher.c:277-358 | The lowest pending frame heard once, late enough, and then one ack strictly shrink the pending list. |
| RudpAcks.DrainsHearingOnce | code/devcore/rudp/src/dispatcher.c:277-358 | So a schedule that hears each pending frame once and one ack each, with no repetition, drains the sender and delivers all it accepted. |
| RudpAcks.EveryRunDrainsHearingOnce | code/devcore/rudp/src/dispatcher.c:277-358 | The same from the last state of every run with an open sender, however late it begins. |
| RudpTiming.RttMovesTowardsSample | code/devcore/rudp/src/dispatcher.c:360-368 | An accepted sample (0 < sample < 10000, raised to 20) moves the average towards it and never past it, within [20, 9999]: by a quarter of the distance rounded down, by an eighth for an outlier, so it stands still exactly within four milliseconds below the sample; any other sample changes nothing. |
| RudpTiming.ThresholdSettles | code/devcore/rudp/src/dispatcher.c:314-324 | Any number of consecutive acks at one average: over a fast link (under 30 ms) the threshold climbs to 16 within seven, over a slow one (over 100 ms) it falls to 2 within fourteen, and then stays; in between it never moves. |
| RudpTiming.AlwaysTuned | code/devcore/rudp/src/dispatcher.c:314-368 | In every run, at both ends and without any limit on sends: average in [20, 9999], threshold in [2, 16], no packet retransmitted more than 10 times. |
| RudpTiming.BackoffAddsUp | code/devcore/rudp/src/connection.c:299-321 | Each retry waits long enough that c retries take at least 10 c (c + 2) ms. |
| RudpTiming.AlwaysPatient | code/devcore/rudp/src/connection.c:299-321 | In every run whose sweeps read a non-decreasing clock, every pending packet retried c times has a timestamp at least 10 c (c + 2) ms after its first one. |
| RudpTiming.ClosingIsPatient | code/devcore/rudp/src/connection.c:299-321 | If a step closes the connection, a pending packet had used up 10 retransmissions and the sweep is at least 1200 ms after that packet was first sent. |
| RudpTiming.SilentPeerIsGivenUp | code/devcore/rudp/src/connection.c:280-326 | If each sweep finds every packet due, no answer comes, and the most retried packet has m retransmissions, the connection closes on exactly the (11 - m)th sweep, and on none before. |
| RudpTiming.LateSweepCounts | code/devcore/rudp/src/connection.c:291-323 | A sweep late enough for all, with nobody at the cap, adds one retransmission to each packet and stamps it, and changes nothing else. |
| RudpTiming.SweepGivesUp | code/devcore/rudp/src/connection.c:299-312 | A closing sweep drops the capped packet and no other. |
| RudpTiming.SweepSendsExactly | code/devcore/rudp/src/connection.c:291-323 | A sweep sends a frame if and only if it is the packet of an entry that is due and lies before the first one at the cap. |
| RudpTiming.SendKeepsOrder | code/devcore/rudp/src/connection.c:117-146 | Accepted packets pend in ascending order of number as long as no ack removes any. |
| RudpTiming.ResentInOrder | code/devcore/rudp/src/connection.c:291-323 | A retry pass over a pending list in ascending order puts the frames out in ascending order, each once. |
| RudpTiming.DueExactly | code/devcore/rudp/src/connection.c:314-316 | A packet is due if and only if the time since it was last sent reaches (1.5 + n) averages, rounded down. |
| RudpTiming.FirstRetry | code/devcore/rudp/src/connection.c:314-322 | The first packet of a new connection goes out again 375 ms after it was sent, and no earlier. |
| RudpTiming.AckMeasures | code/devcore/rudp/src/dispatcher.c:338-368 | An ack moves the average by the age of the packet it names when that is pending and was sent once, and leaves it alone otherwise. |
| RudpTiming.FirstAcknowledgement | code/devcore/rudp/src/dispatcher.c:288-324 | A new connection acknowledges packet 0 at once, with number 0 and between the right ends, and from then on every second frame. |
| RudpTiming.EmptyBatch | code/devcore/rudp/src/dispatcher.c:314-324 | What an ack sent with nothing counted does to the threshold: the usual change, and then at most four. |
| RudpReorder.ReorderingIsExact | code/devcore/rudp/src/connection.c:202-278 | One call delivers exactly the maximal gap-free run from the expected number in buffer plus in-window parked frames, keeps exactly the candidates beyond the gap, ascending and at most 128, and empties the parked queue. |
| RudpReorder.ReorderingConserves | code/devcore/rudp/src/connection.c:202-278 | As multisets, buffer plus parked frames equal delivered plus buffered plus freed: no frame is lost, leaked or doubled. |
| RudpReorder.AbsorbAllExact | code/devcore/rudp/src/connection.c:210-251 | After the drain loop a number is buffered exactly when it was already or was parked inside the window; the buffer stays strictly ascending. |
| RudpReorder.AbsorbAllConserves | code/devcore/rudp/src/connection.c:210-251 | Every popped frame ends either buffered or freed. |
| RudpReorder.RunIsConsecutive | code/devcore/rudp/src/connection.c:255-273 | On an ascending buffer the delivery loop takes consecutive numbers from the expected one and stops only at a gap. |
| RudpReorder.EarlyFramesAreKept | code/devcore/rudp/src/dispatcher.c:271-285 | Any number of frames other than the expected one are all parked, in order, and deliver nothing. |
| RudpReorder.GapCloses | code/devcore/rudp/src/dispatcher.c:271-285 | If the next n numbers behind the expected one were heard early, in any order and with anything in between, hearing the expected one delivers it and all of them. |
| RudpPending.SweepKeeps | code/devcore/rudp/src/dispatcher.c:338-358 | The in-place swap-remove loop keeps, as a multiset, exactly the entries whose number is above the ack. |
| RudpPending.SwapRemoveKeep | code/devcore/rudp/src/dispatcher.c:351-356 | Overwriting an acknowledged entry by the last one loses no unacknowledged entry. |
| RudpPending.SwapRemoveMovesOne | code/devcore/rudp/src/dispatcher.c:351-356 | One removal moves no entry but the last, into the hole. |
| RudpPending.SampleIsExact | code/devcore/rudp/src/dispatcher.c:338-349 | The RTT sample comes from the entry the ack names, and only if that entry was never retransmitted; otherwise there is none. |
| RudpPending.DuePacksMembers | code/devcore/rudp/src/connection.c:291-323 | The frames a retry pass puts on the wire are exactly the packets of the pending entries whose back-off has passed. |
| RudpConnection.Connection.constructor | code/devcore/rudp/src/connection.c:12-63 | A new connection has the initial counters, estimates and empty containers. |
| RudpConnection.Connection.Send | code/devcore/rudp/src/connection.c:113-148 | Return code, whole new state and frame sent: refused when closed or when 128 are pending, else stamped, sent and remembered. |
| RudpConnection.Connection.Recv | code/devcore/rudp/src/connection.c:150-155 | The front of the delivery queue (`RecvTakesFront`), the empty-queue code or the closed code, and nothing else changes. |
| RudpConnection.Connection.Reordering | code/devcore/rudp/src/connection.c:202-278 | The imperative reordering equals the specification `Reordered`, and frees exactly the frames `Discards` names. |
| RudpConnection.Connection.DrainNet | code/devcore/rudp/src/connection.c:210-251 | The drain loop empties the parked queue into the buffer as specified, and accounts for every freed frame. |
| RudpConnection.Connection.FindSlot | code/devcore/rudp/src/connection.c:228-241 | The insertion scan finds the first entry not below the number, and reports a duplicate exactly when that entry equals it. |
| RudpConnection.Connection.TakeParked | code/devcore/rudp/src/connection.c:217-250 | One popped frame is inserted at its place, or freed when stale, too far ahead or a duplicate. |
| RudpConnection.Connection.DeliverRun | code/devcore/rudp/src/connection.c:255-273 | The delivery loop moves exactly the specified front of the buffer to the delivery queue and sets the last received number. |
| RudpConnection.Connection.HandleData | code/devcore/rudp/src/dispatcher.c:267-331 | Whole new state, frames sent and frames freed when a DATA frame arrives; when an ack is sent is `AcksExactly`. |
| RudpConnection.Connection.TakeFrame | code/devcore/rudp/src/dispatcher.c:271-285 | A DATA frame is parked and counted; reordering runs only if it is the expected one. |
| RudpConnection.Connection.SendAck | code/devcore/rudp/src/dispatcher.c:301-313 | One RACK with the last received number goes out, the counters restart and the threshold adapts. |
| RudpConnection.Connection.AdjustThreshold | code/devcore/rudp/src/dispatcher.c:314-324 | The threshold becomes the specified next one. |
| RudpConnection.Connection.HandleRack | code/devcore/rudp/src/dispatcher.c:333-371 | The in-place loop over the pending list equals the specified sweep, with the RTT update; the frame is freed. |
| RudpConnection.Connection.Timeouts | code/devcore/rudp/src/connection.c:280-326 | Whole new state and frames sent: entries before the first capped one are retried when due, the capped one closes the connection. |
| RudpConnection.Connection.RetryUntilCapped | code/devcore/rudp/src/connection.c:291-323 | The retry loop stops exactly at the first entry that has used up its retransmissions. |
| RudpConnection.Connection.RetryAt | code/devcore/rudp/src/connection.c:314-322 | One entry is resent, restamped and counted exactly when its back-off has passed. |
| RudpConnection.Connection.NetHandler | code/devcore/rudp/src/dispatcher.c:264-392 | Dispatch over every packet type: DATA and RACK get their specified state and frames, FIN closes and drops the connection, any other type is freed and changes nothing. |
| RudpConnection.Connection.Close | code/devcore/rudp/src/connection.c:65-109 | Every received packet still held is freed exactly once, all containers are emptied, and two FIN frames go out. |
| PunchProtocol.QuietMeansActive | code/devcore/interface/src/handlers.c:6-79 | In every state of every run with nothing in flight: both sides are ACTIVE if and only if someone has started and no node still owes the punch of the peer it added. |
| PunchProtocol.EveryRunCanConverge | code/devcore/interface/src/handlers.c:6-79 | Any run that has committed can be completed, by deliveries alone, to a quiet state in which both sides are ACTIVE. |
| PunchProtocol.SettlesQuietly | code/devcore/interface/src/handlers.c:6-79 | From every invariant state at most `Traffic` deliveries reach a quiet state, with no new punch. |
| PunchProtocol.DeliveriesDieOut | code/devcore/interface/src/handlers.c:6-79 | Every delivery strictly decreases the traffic measure, so no schedule of deliveries goes on forever. |
| PunchProtocol.NoisyCanDeliver | code/devcore/interface/src/handlers.c:6-79 | While anything is in flight some delivery is enabled, so quiet states are the only ones where deliveries stop. |
| PunchProtocol.RankNeverDrops | code/devcore/interface/src/handlers.c:6-79 | The view of the peer only moves forward along unknown, INITED, NATPUNCHING, ACTIVE. |
| PunchProtocol.AcksAreBounded | code/devcore/interface/src/handlers.c:12-24 | In every run, with any number of repeated punches, the ACKs ever sent are at most the PUNCHes ever sent plus two. |
| PunchLoss.LossBlocksExactly | code/devcore/interface/src/handlers.c:6-79 | With messages lost as well: whatever was lost in a run, it can still be completed to both sides ACTIVE if and only if neither node is ACTIVE while the other still needs an ACK and none is on its way. |
| PunchLoss.StuckStays | code/devcore/interface/src/handlers.c:19-27 | That position is final: no step of either node, however often both punch again, and no loss leads out of it, since an ACTIVE node sends no ACK. |
| PunchLoss.OneLossCanBlock | code/devcore/interface/src/handlers.c:19-27 | It is reached by losing a single ACK: from any start, a run of five moves ends in it. |
| PunchLoss.PathKeepsLossInv | code/devcore/interface/src/handlers.c:6-79 | The part of the handshake invariant that survives losses holds at every moment. |
| PunchAddresses.AddressIsLastHeard | code/devcore/interface/src/handlers.c:30-79 | In every run each node knows its peer if and only if it added it or handled a PUNCH from it; the stored address is that of the last PUNCH handled or the one given when last added, whichever is later, and no ACK changes it. The stored key is the one it was last added with, else the peer's own. |
| PunchAddresses.EverStored | code/devcore/interface/src/handlers.c:30-79 | The invariant behind it, at the end of every run. |
| Peers.PunchTeachesAddress | code/devcore/interface/src/handlers.c:40-79 | A PUNCH that is not dropped leaves the peer stored under the address it came from, whatever was stored before; every answer goes to that address; the rest of what is known stays, and no other peer changes. |
| Peers.AckTeachesNothing | code/devcore/interface/src/handlers.c:6-28 | An ACK makes a known sender ACTIVE and changes nothing else, in particular no address; its answers go to the stored address. |
| Peers.PunchDescribesSender | code/devcore/interface/src/system.c:187-212 | Whoever rebuilds a peer from a PUNCH gets its sender's uid, address and key; it is sent to the stored address. |
| Peers.AddedThenPunched | code/devcore/interface/src/system.c:166-212 | The first PUNCH to a peer just added goes to the address given and names the server given. |
| Peers.UselessPunchIgnored | code/devcore/interface/src/handlers.c:36-57 | The own PUNCH, and an unknown peer's that describes nobody, change and answer nothing. |
| PunchProtocol.RunKeepsInv | code/devcore/interface/src/system.c:166-212 | The handshake invariant holds in every state of every run. |
| Peers.Node.HandleAck | code/devcore/interface/src/handlers.c:6-28 | New table, messages sent with their destinations, and return code when an ACK arrives, for a known and an unknown sender. |
| Peers.Node.HandlePunch | code/devcore/interface/src/handlers.c:30-79 | New table, messages sent with their destinations, and return code when a PUNCH arrives, for a known peer and for one rebuilt from the payload: it succeeds exactly when it answers. What is learnt is `PunchTeachesAddress`. |
| Peers.Node.AddPeer | code/devcore/interface/src/system.c:166-185 | The new entry overwrites any old one under that uid and starts INITED. |
| Peers.Node.NatPunch | code/devcore/interface/src/system.c:187-212 | Sends one PUNCH carrying the own record to the stored address if the peer is known, and fails otherwise. |
| Peers.Node.DbSetState | code/devcore/peersyst/src/peerdb.c:69-83 | Changes the state of a known peer only, and fails exactly for an unknown one. |
| Peers.Node.DbSetNfd | code/devcore/peersyst/src/peerdb.c:85-102 | Changes the network address of a known peer only, and fails exactly for an unknown one. |
| Crc.BurstDetected | code/devcore/protocol/src/proto.c:23-34 | Two texts that differ only inside a window of at most four bytes, anywhere, never have the same checksum. |
| Crc.CheckValue | code/devcore/protocol/src/proto.c:23-34 | The sum of the digits 1 to 9 is CBF43926, the check value of this CRC-32, and the sum of nothing is 0: this pins polynomial, start value and final complement. |
| Crc.TurnLinear | code/devcore/protocol/src/proto.c:28-31 | One turn of the bit loop is linear over exclusive-or. |
| Crc.TurnInvertible | code/devcore/protocol/src/proto.c:28-31 | One turn can be undone, so it loses no information. |
| Crc.FeedInjective | code/devcore/protocol/src/proto.c:26-32 | Equal further bytes never bring two different register states together. |
| Crc.FeedWord | code/devcore/protocol/src/proto.c:26-32 | Up to four bytes act as one word mixed into the register before 8 turns per byte. |
| Crc.FeedDifference | code/devcore/protocol/src/proto.c:26-32 | A difference between register states evolves independently of the text fed. |
| Crc.Crc32 | code/devcore/protocol/src/proto.c:23-34 | The loop computes the specified checksum. |
| Crc.EightTurns | code/devcore/protocol/src/proto.c:28-31 | The inner bit loop is eight turns. |
| Wire.RoundTrip | code/devcore/protocol/src/proto.c:164-197 | Decoding the encoded frame, on a host of either byte order, restores every field except the checksum, which holds the sum in network order. |
| Bursts.BurstRejected | code/devcore/protocol/src/proto.c:173-182 | `protopack_recv` rejects every frame of the same length that differs from an accepted one only within four bytes lying wholly outside or wholly inside the checksum field. |
| Bursts.CaughtExactly | code/devcore/protocol/src/proto.c:173-182 | Every four-byte burst from position i on is caught, in every frame, if and only if i is 0, 4 or at least 8: each of the six straddling positions has a burst that some frame lets through. |
| Bursts.AcceptanceIsPattern | code/devcore/protocol/src/proto.c:164-182 | A same-length change of an accepted frame is accepted if and only if the difference alone is consistent: in the checksum field, what the register makes of the rest of it from state 0. The frame does not matter. |
| Bursts.FeedPattern | code/devcore/protocol/src/proto.c:26-32 | The checksum loop is linear over exclusive-or in register and text together. |
| Bursts.NotCaught | code/devcore/protocol/src/proto.c:173-182 | Any consistent pattern defeats some frame of its length. |
| Wire.RelayDecodesTwice | code/devcore/protocol/src/protomsgs.c:40-62 | A relay packet exists exactly up to 1390 payload bytes, and decoding twice, even on hosts of different byte order, restores the original. |
| Wire.MadePackDecodes | code/devcore/protocol/src/proto.c:46-74 | A packet is made exactly up to 1411 payload bytes; encoded and decoded, every argument comes back in its own field. |
| Wire.CopyIsFaithful | code/devcore/protocol/src/proto.c:76-88 | The copy of a record whose size field is right is that record. |
| Wire.BigEndian | code/devcore/protocol/src/proto.c:90-102 | In network order the most significant byte comes first. |
| Wire.HostBack | code/devcore/protocol/src/proto.c:90-102 | A number in memory is read back on a host of either order. |
| Wire.Relay | code/devcore/protocol/src/protomsgs.c:40-62 | The relay builder wraps the encoded original, or fails, as specified. |
| Wire.RetranslateAndSend | code/devcore/protocol/src/proto.c:90-102 | Retranslation followed by `protopack_send` (lines 152-162) yields the one encoding. |
| Wire.WorkerSerialize | code/devcore/providers/src/sender.c:164-187 | Copy-then-patch in the worker yields the same bytes, and gives up exactly when the frame exceeds the 2048-byte buffer. |
| Wire.LowSend | code/devcore/providers/src/sender.c:87-126 | The bytes the low-level sender puts on the wire: the same encoding, or the untouched image when told not to convert; and how many payload bytes its first copy reads. |
| Wire.SwappedSizeFits | code/devcore/providers/src/sender.c:87-95 | On a record in network order that first copy stays within the payload if and only if the host is big-endian or the payload is empty. |
| Wire.CopyStaysInside | code/devcore/protocol/src/proto.c:76-88 | `udp_copy_pack` depends on nothing behind the record if and only if the size field is at most the payload length. |
| Bursts.AnythingIsAccepted | code/devcore/protocol/src/proto.c:164-197 | Any bytes of an accepted length pass once the right sum is in the checksum field, and every other field is then taken as it stands. |
| Bursts.SizeIsUnchecked | code/devcore/protocol/src/proto.c:164-197 | In particular every size field comes with every frame length, so a decoded record need not be safe to copy. |
| Wire.CopyIn | code/devcore/providers/src/sender.c:105-123 | A memory copy into a buffer changes that range and nothing else. |
| Wire.ProtopackRecv | code/devcore/protocol/src/proto.c:164-197 | The in-place decoder returns exactly the specified record or NULL. |
| Wire.NetworkOrder | code/devcore/protocol/src/proto.c:90-102 | A converted field reads big-endian in memory whatever the host, and converting twice is the identity. |
| Wire.ImageIsFrame | code/devcore/protocol/src/proto.c:152-162 | The memory image of a converted record is the wire layout. |
| E2ee.PairedExactly | code/devcore/e2ee/src/connection.c:134-186 | For two ends with distinct uids and any exchange (any number of offers and answers, repeated, in any order, with any handshakes at all arriving in between, except that nothing verifies under a peer's key but what carries that peer's public half): they end up with opposite roles, crossed keys and equal counters if and only if the last step of each end was an answer to a verified handshake; both counters are still 0. |
| E2ee.AnswersPair | code/devcore/e2ee/src/connection.c:134-186 | Whatever happened before, once both have sent a handshake, one answer at each end pairs them. |
| E2ee.GenuineIsAccepted | code/devcore/e2ee/src/connection.c:154-186 | At any moment of any exchange everything the peer has sent verifies, is accepted, and is no forgery. |
| E2ee.ExchangeInv | code/devcore/e2ee/src/connection.c:134-186 | A session is ended exactly when its last step was an answer to a verified handshake, and then its keys are those of its role and the peer. |
| E2ee.OnlyVerifiedChanges | code/devcore/e2ee/src/connection.c:154-186 | A handshake changes a session if and only if its signature verifies under the peer's key and it yields keys; then the keys are those of the own role. |
| E2ee.HelloCarries | code/devcore/e2ee/src/connection.c:134-152 | What goes out carries the given number and the own public half, and its signature verifies under the own public key. |
| E2ee.SignedInjective | code/devcore/e2ee/src/connection.c:162-165 | No two pairs of number and public half are signed as the same bytes. |
| E2ee.RolesDiffer | code/devcore/e2ee/src/connection.c:10-28 | Distinct uids give opposite roles, the server's to the smaller uid. |
| E2ee.StreamSurvivesJunk | code/devcore/e2ee/src/connection.c:100-132 | Rejected ciphertexts, anywhere in the input, never desynchronise the counters: the plaintexts that come out are a prefix of those that went in. |
| E2ee.LostCiphertextStalls | code/devcore/e2ee/src/connection.c:100-132 | For one session alone: from a list of ciphertexts that all lie behind a missing one, nothing opens. The runs over RUDP are in SecureStream. |
| E2ee.NonceInjective | code/devcore/crypto/src/system.c:21-66 | Different counters give different nonces. |
| E2ee.NonceBack | code/devcore/crypto/src/system.c:28-29 | The nonce is four zero bytes and then the counter, from which it can be read back. |
| E2ee.LittleEndianBack | code/devcore/crypto/src/system.c:28-29 | Little-endian bytes give the number back, for every width. |
| E2ee.CounterWraps | code/devcore/crypto/src/system.c:38-38 | The 64-bit counter wraps around. |
| E2ee.AssumptionsConsistent | code/devcore/crypto/src/system.c:21-66 | The assumptions made about the crypto library can be met together, with two keys of distinct uids. |
| E2ee.Connection.constructor | code/devcore/e2ee/src/connection.c:10-28 | Role by uid comparison, fresh counters, not yet shaken hands. |
| E2ee.Connection.HandshakeInit | code/devcore/e2ee/src/connection.c:134-152 | The signed half that goes out, and the new state. |
| E2ee.Connection.HandshakeResp | code/devcore/e2ee/src/connection.c:154-186 | Succeeds exactly when the signature over number and public half verifies under the peer's key and the key derivation succeeds, and then derives the keys for the own role; otherwise changes nothing. |
| E2ee.Connection.Encrypt | code/devcore/e2ee/src/connection.c:61-98 | The ciphertext or the error, and a counter that moves only on success. |
| E2ee.Connection.Decrypt | code/devcore/e2ee/src/connection.c:100-132 | The plaintext or the error, and a counter that moves only on success. |
| SecureStream.HeardIsExact | code/devcore/e2ee/src/connection.c:61-186 | In every run over RUDP, for an AEAD whose ciphertexts open under no other nonce, with encryptions at any time, whatever `rudp_conn_send` refuses and with handshakes repeated at any time: the decrypted plaintexts are a prefix of the encrypted ones, reaching exactly to the first refused ciphertext, to the first one received while the session was not ended, or as far as was received; everything else received is rejected; nothing is rejected if and only if neither occurred. |
| SecureStream.AcceptedAlwaysFits | code/devcore/e2ee/src/connection.c:61-98 | Every plaintext size `e2ee_encrypt` accepts yields a payload `udp_make_pack` accepts, in every run and for any AEAD with 16 bytes of overhead. |
| SecureStream.EncryptsExactlyWhatFits | code/devcore/e2ee/src/connection.c:61-98 | `e2ee_encrypt` accepts a plaintext if and only if the ciphertext makes a packet. |
| SecureStream.ShortIsRejected | code/devcore/e2ee/src/connection.c:100-132 | A payload shorter than the overhead opens nothing and moves no counter, whatever the library would say. |
| SecureStream.OfferMidStreamIsFatal | code/devcore/e2ee/src/connection.c:134-152 | From any run with both ends open, a handshake offered by the hearer in mid-stream can lose the stream for good, with every ciphertext accepted. |
| SecureStream.RunKeepsSpeaker | code/devcore/e2ee/src/connection.c:61-98 | The speaker half of the invariant, for any AEAD and any number of sends: ciphertext i is plaintext i under counter i, and the accepted packets carry an increasing selection. |
| SecureStream.HeardIsPrefixOfSaid | code/devcore/e2ee/src/connection.c:61-132 | In particular, as long as nothing was refused and nothing met an unfinished session every received payload decrypts, and this for any AEAD that decrypts what it encrypts. |
| SecureStream.RefusalIsFatal | code/devcore/e2ee/src/connection.c:61-98 | Any run in which a ciphertext was refused while both ends are open and the speaker can encrypt continues to a run in which received payloads are rejected. |
| SecureStream.LossIsForever | code/devcore/e2ee/src/connection.c:100-186 | Once one received payload was rejected, no later moment of the run has more plaintext than then, whatever handshakes follow. |
| SecureStream.FullWindowRefuses | code/devcore/rudp/src/connection.c:117-123 | A reachable run whose window is full: from any start, 129 encryptions in a row, the last one refused. |
| SecureStream.SomeRunLosesTheStream | code/devcore/e2ee/src/connection.c:61-132 | From any start such a run goes on to lose the stream, so the condition above is not vacuous. |
| SecureStream.NoncesNeverRepeat | code/devcore/crypto/src/system.c:21-66 | With no assumption on the AEAD, on the network or on the number of packets sent: no two of fewer than 2^64 ciphertexts of a run are made under the same nonce, refused ones included and handshakes in between, and only these ciphertexts are ever sent. |
| SecureStream.TalkRunKeepsInv | code/devcore/e2ee/src/connection.c:61-186 | The composed invariant at the end of every run: the speaker half, and the hearer standing at the first gap or deaf moment. |
| HashTable.RehashKeeps | code/devcore/base/src/base/dyn_htable.c:422-438 | Redistributing a table over any number of chains changes no lookup and no count, and leaves every node where its key hashes to. |
| HashTable.PushAllKeeps | code/devcore/base/src/base/dyn_htable.c:422-438 | Moving a list of nodes with new, distinct keys adds exactly their entries. |
| HashTable.FlattenFinds | code/devcore/base/src/base/dyn_htable.c:422-438 | Read as one list in bucket order a table still has unique keys and the same lookups. |
| HashTable.ReplaceKeeps | code/devcore/base/src/base/dyn_htable.c:133-139 | Replacing a value in its chain changes that key's lookup and nothing else. |
| HashTable.RemoveKeeps | code/devcore/base/src/base/dyn_htable.c:221-243 | Unlinking a node removes that key and no other. |
| HashTable.Table.constructor | code/devcore/base/src/base/dyn_htable.c:11-34 | An empty map with capacity at least 8. |
| HashTable.Table.Insert | code/devcore/base/src/base/dyn_htable.c:119-148 | Map update, code and size; the capacity doubles exactly when the table was full; size never exceeds capacity. |
| HashTable.Table.Put | code/devcore/base/src/base/dyn_htable.c:133-147 | The part after growing: update in place, or push to the front of the chain. |
| HashTable.Table.Search | code/devcore/base/src/base/dyn_htable.c:170-188 | Returns what the abstract map holds. |
| HashTable.Table.Contains | code/devcore/base/src/base/dyn_htable.c:150-168 | True exactly for the keys of the abstract map. |
| HashTable.Table.Erase | code/devcore/base/src/base/dyn_htable.c:210-246 | Map removal and size; the capacity falls back to 8 exactly when the last key goes, and stays otherwise. The codes for removed and not found are both 0, so the result tells nothing. |
| HashTable.Table.Clear | code/devcore/base/src/base/dyn_htable.c:248-260 | The empty map at minimum capacity. |
| HashTable.Table.Reserve | code/devcore/base/src/base/dyn_htable.c:272-285 | Changes no lookup and never lowers the capacity: afterwards it is enough for the request up to rounding by the load factor. |
| HashTable.Table.Resize | code/devcore/base/src/base/dyn_htable.c:396-420 | Changes no lookup; the capacity becomes the request, raised to 8. |
| HashTable.Table.Rehash | code/devcore/base/src/base/dyn_htable.c:422-438 | The double loop pushes every old node, in order, to the front of its new chain. |
| HashTable.Table.Copy | code/devcore/base/src/base/dyn_htable.c:36-65 | The copy has its own storage and the same map, size and capacity. |
| HashTable.Table.CopyNodes | code/devcore/base/src/base/dyn_htable.c:56-62 | The copying loop pushes every node of the second table, in order. |
| RingQueue.FifoConserves | code/devcore/base/src/base/prot_queue.c:53-109 | Over every run of pushes and pops, what came out followed by what is left is what went in, in order. |
| RingQueue.UPushKeepsDistinct | code/devcore/base/src/base/prot_queue.c:71-88 | A queue fed only by upush never holds two equal elements, over every run. |
| RingQueue.Queue.constructor | code/devcore/base/src/base/prot_queue.c:4-21 | Empty, with the initial capacity. |
| RingQueue.Queue.Grow | code/devcore/base/src/base/prot_queue.c:31-51 | Growth from any wrapped position doubles the capacity and keeps the queued sequence. |
| RingQueue.Queue.Straightened | code/devcore/base/src/base/prot_queue.c:38-43 | The copy loop unrolls the ring into the front of the new storage. |
| RingQueue.Queue.Push | code/devcore/base/src/base/prot_queue.c:53-69 | Appends, growing when full. |
| RingQueue.Queue.Store | code/devcore/base/src/base/prot_queue.c:132-141 | Appends when there is room. |
| RingQueue.Queue.Pop | code/devcore/base/src/base/prot_queue.c:91-109 | Returns and removes the front, or reports empty and changes nothing. |
| RingQueue.Queue.UPush | code/devcore/base/src/base/prot_queue.c:71-88 | Appends exactly when the element is not queued. |
| RingQueue.Queue.Holds | code/devcore/base/src/base/prot_queue.c:76-83 | The scan over the ring finds the element exactly when it is queued. |
| DynArray.Array.constructor | code/devcore/base/src/base/dyn_array.c:3-11 | Empty, with room to spare. |
| DynArray.Array.Push | code/devcore/base/src/base/dyn_array.c:26-44 | Appends, keeping the slack slot. |
| DynArray.Array.Insert | code/devcore/base/src/base/dyn_array.c:119-147 | Inserts at the index and keeps the rest in order; fails exactly past the end. |
| DynArray.Array.ShiftUp | code/devcore/base/src/base/dyn_array.c:131-137 | The overlapping move up by one keeps every element. |
| DynArray.Array.Remove | code/devcore/base/src/base/dyn_array.c:70-83 | Removes that index and keeps the rest in order; fails exactly past the end. |
| DynArray.Array.Reserve | code/devcore/base/src/base/dyn_array.c:29-34 | One growth step restores the slack and keeps the contents. |
| Gossip.MergeIsMaximum | code/devcore/gossip/src/system.c:42-75 | After any sequence of inserts the store has one entry per uid, none of its own uid, and for each other uid exactly the highest version received. |
| Gossip.OrderDoesNotMatter | code/devcore/gossip/src/system.c:42-75 | The uid-to-version map is the same for every order of arrival. |
| Gossip.ReinsertionIsNoOp | code/devcore/gossip/src/system.c:42-75 | Inserting again an entry that was received before changes nothing. |
| Gossip.StoreInArrivalOrder | code/devcore/gossip/src/system.c:42-75 | The store is a subsequence of what arrived: records byte for byte, in their order. |
| Gossip.FieldsOfEntry | code/devcore/gossip/src/system.c:42-60 | The uid and version that decide are the ones the packed record carries, on a host of either order. |
| Gossip.InsertStores | code/devcore/gossip/src/system.c:42-75 | What one insert does to the uid-to-version map, for the uid it concerns and for every other. |
| Gossip.SampleHasDistinctPeers | code/devcore/gossip/src/system.c:78-115 | A sample of a merged store has pairwise different peers, all of them stored. |
| Gossip.PacketRoundTrip | code/devcore/gossip/src/system.c:118-169 | Unpacking a packed list stores exactly those entries in that order, whatever lies behind the packet in memory. |
| Gossip.System.NewEntry | code/devcore/gossip/src/system.c:42-75 | The imperative insert equals the specified one. |
| Gossip.System.Locate | code/devcore/gossip/src/system.c:48-57 | The search finds the first entry of that uid. |
| Gossip.System.RandomEntries | code/devcore/gossip/src/system.c:78-115 | Whatever rand() returns, the sample is the one `Picked` names: min(n, len) entries from pairwise different positions; the two error returns occur exactly on n = 0 and on an empty store. |
| Gossip.System.Shuffle | code/devcore/gossip/src/system.c:97-103 | The in-place swaps of the index array equal the specified ones. |
| Gossip.EveryPickOccurs | code/devcore/gossip/src/system.c:88-113 | A list of stored entries is the sample for some values of rand(), all below the store's size, if and only if its entries sit at pairwise different positions of the store: nothing else occurs, and nothing is missed, in any order. |
| Gossip.ZerosTakeFront | code/devcore/gossip/src/system.c:97-113 | If rand() only returned 0 the sample would be the oldest entries, in order. |
| Gossip.System.FromPacket | code/devcore/gossip/src/system.c:118-145 | The code for every packet, and the store: the records the program takes by its own size test, in order, wherever they end. |
| Gossip.StoresOnlyCarried | code/devcore/gossip/src/system.c:134-142 | Every stored record lies in the packet if and only if the count announces no more than the whole records or fewer than 148 bytes follow them; then exactly the packet's records are stored. |
| Gossip.CopiesPastTheEnd | code/devcore/gossip/src/system.c:135-138 | Some copy reaches past the packet, the copy being made before the test, if and only if the count announces more than the whole records. |
| Gossip.HeaderNotCounted | code/devcore/gossip/src/system.c:134-142 | An input where the test fails its purpose: 304 bytes announcing two records store a second one that ends four bytes past the packet. |
| Gossip.ToData | code/devcore/gossip/src/system.c:148-169 | Count in network order and records one after another, or an error on none. |
| Query.ParameterRecovered | code/devcore/uhttp/src/parser.c:352-419 | Whatever encoding of a value the first `name=` segment holds, for every nonempty name, the caller gets that value, cut off exactly where the buffer ends. |
| Query.ScanIsFirstValueExactly | code/devcore/uhttp/src/parser.c:363-377 | The scanner returns the value of the first `&`-separated segment of the form name=value if and only if the name has no `&` or matches the raw text at no segment start. |
| Query.ScanFinds | code/devcore/uhttp/src/parser.c:363-377 | For every name the scanner finds a value if and only if name= stands in the raw text at the start of a segment. |
| Query.NameAcrossSegments | code/devcore/uhttp/src/parser.c:363-377 | An input where the two differ: `a&b=1` read for the name `a&b`. |
| Query.DecodeUndoesEncoding | code/devcore/uhttp/src/parser.c:379-410 | Decoding undoes every percent/plus encoding of every value. |
| Query.DecodesExactly | code/devcore/uhttp/src/parser.c:379-410 | A text without `&` is an encoding of a value if and only if it decodes to that value: literal bytes, plus for a space, two hexadecimal digits of either case behind a percent sign, and a percent sign without two digits for itself. |
| Query.EscapeAllEncodes | code/devcore/uhttp/src/parser.c:379-410 | Every value has an encoding with digits in any mixture of cases, so that law is about all values. |
| Query.OutcomeExactly | code/devcore/uhttp/src/parser.c:352-419 | Bad arguments exactly for an empty name or no room, found exactly when the name and room are there and name= stands at a segment start. |
| Query.MatchesExactly | code/devcore/uhttp/src/parser.c:370-372 | A segment matches exactly when it is the name, an equals sign and some value. |
| Query.QuestionMarkIgnored | code/devcore/uhttp/src/parser.c:358-358 | A leading question mark is not part of the query. |
| Query.GetQueryParam | code/devcore/uhttp/src/parser.c:352-419 | The pointer-scanning code equals the specification, with its error returns. |
| Query.DecodeLoop | code/devcore/uhttp/src/parser.c:379-410 | The decoding loop equals the specified decoder and never writes past the buffer. |
| HttpTheorems.ResponseRoundTrip | code/devcore/uhttp/src/api.c:262-335 | Parsing a printed response, followed by anything, recovers status, text and body, for every response with a 3-digit status, clean fields, no second Content-Length and a body within the limit; the content type comes back if and only if it is the default. |
| HttpTheorems.RequestRoundTrip | code/devcore/uhttp/src/api.c:337-403 | Parsing a printed request, followed by anything, recovers method and path; the body comes back if and only if it is empty, or the method is POST and there is an extra header. |
| HttpTheorems.StreamsExactlyUpToHeadLimit | code/devcore/uhttp/src/parser.c:112-227 | For an accepted request: every proper prefix is INCOMPLETE and everything from the end of the body on gives the same result, if and only if the head with its blank line is at most 8192 bytes. |
| HttpTheorems.ResponsesStreamExactlyUpToHeadLimit | code/devcore/uhttp/src/parser.c:229-350 | The same if-and-only-if for responses. |
| HttpTheorems.SomeRequestDoesNotStream | code/devcore/uhttp/src/parser.c:125-130 | A request that parses whole and whose first 8192 bytes are rejected. |
| HttpTheorems.SomeResponseDoesNotStream | code/devcore/uhttp/src/parser.c:243-248 | A response of that kind. |
| HttpTheorems.ResponseFieldsRecovered | code/devcore/uhttp/src/parser.c:43-110 | The header fields of a printed response come back in order, all but the last one and at most twenty, when keys have no colon, values no leading space and both are short. |
| HttpTheorems.RequestFieldsRecovered | code/devcore/uhttp/src/parser.c:43-110 | The same for a printed request. |
| HttpTheorems.ResponsePrefixResult | code/devcore/uhttp/src/parser.c:229-350 | The result on every nonempty prefix of an accepted response. |
| HttpTheorems.PrefixResult | code/devcore/uhttp/src/parser.c:112-227 | The result on every nonempty prefix of an accepted request, with the exact prefixes on which the parser reports an error instead of INCOMPLETE. |
| HttpTheorems.AppendingIsHarmless | code/devcore/uhttp/src/parser.c:112-350 | Appending arbitrary bytes never changes an accepted request or response. |
| HttpTheorems.BlankFound | code/devcore/uhttp/src/parser.c:7-21 | The blank line is found right after the printed head, never inside it. |
| HttpTheorems.LinesSkipLast | code/devcore/uhttp/src/parser.c:43-110 | The header parser processes every line of its span except the last. |
| HttpMessages.AnySpelling | code/devcore/uhttp/src/parser.c:98-98 | The test for the length header accepts exactly the spellings of Content-Length in any mixture of cases. |
| HttpMessages.AnySpellingGivesBody | code/devcore/uhttp/src/parser.c:112-227 | A POST whose length line is spelled in any such way, with one field behind it, gives its path and body back, whatever follows. |
| HttpMessages.AnySpellingGivesReplyBody | code/devcore/uhttp/src/parser.c:229-350 | The same for the status and body of a response. |
| HttpMessages.RequestParsed | code/devcore/uhttp/src/parser.c:112-227 | Every request made of three words, at least one good field and any bytes behind: an error exactly when the path has 512 bytes or more, INCOMPLETE exactly while the declared body is, and otherwise its method, path, stored fields and body. |
| HttpMessages.ResponseParsed | code/devcore/uhttp/src/parser.c:229-350 | The same for every response, with its status number and text, and an error exactly when the status has 8 characters or more. |
| HttpMessages.MalformedIsError | code/devcore/uhttp/src/parser.c:112-350 | A message without any field, or whose first line has fewer than two spaces, is an error to both parsers. |
| HttpMessages.MessageCut | code/devcore/uhttp/src/parser.c:112-350 | How a message falls into first line, field lines and what lies behind the blank line. |
| HttpMessages.FieldsStored | code/devcore/uhttp/src/parser.c:43-110 | Good fields are stored in order up to twenty, and the last stored Content-Length, in any spelling, sets the length. |
| HttpMessages.LengthExactly | code/devcore/uhttp/src/parser.c:23-41 | A value is read as the length n if and only if it is white space and then digits of value n and nothing else, and n is within the limit. |
| HttpMessages.BadLengthIsError | code/devcore/uhttp/src/parser.c:98-102 | A length header in any spelling with any other value is an error. |
| HttpMessages.LineSkipped | code/devcore/uhttp/src/parser.c:70-91 | A line without a colon, a key or value of 256 bytes or more, and any line after the twentieth header leave no trace. |
| HttpMessages.SpacesDropped | code/devcore/uhttp/src/parser.c:76-82 | Spaces in front of a value make no difference, however many. |
| HttpMessages.StatusReadBack | code/devcore/uhttp/src/parser.c:282-287 | Every printed status, negative ones too, is read back as it was, whatever lies behind it. |
| HttpMessages.AtoiUnsigned | code/devcore/uhttp/src/parser.c:287-287 | The status is the number behind any white space, up to the first other character. |
| HttpMessages.AtoiSigned | code/devcore/uhttp/src/parser.c:287-287 | The same with a sign. |
| HttpPrint.DecimalRead | code/devcore/uhttp/src/parser.c:23-41 | The length parser reads back every printed length up to the limit. |
| HttpPrint.KindReadBack | code/devcore/uhttp/src/api.c:4-23 | The two translations of content types agree: every kind is read back from its text, and no text but its own names a kind other than the default. |
| HttpPrint.BuildResponse | code/devcore/uhttp/src/api.c:262-335 | For every status: the error case, and by how much the reported size misses the printed bytes (nothing exactly for three characters); the bytes themselves for up to four. |
| HttpPrint.BuildRequest | code/devcore/uhttp/src/api.c:337-403 | The printed bytes, and an exact size. |
| HttpPrint.AppendHeaders | code/devcore/uhttp/src/api.c:313-325 | The header loop appends one line per header and counts its bytes. |
| HttpParse.FindSequence | code/devcore/uhttp/src/parser.c:7-21 | The scan returns the first occurrence, or none exactly when there is none. |
| HttpParse.ParseContentLength | code/devcore/uhttp/src/parser.c:23-41 | Leading white space, digits, the limit and the error cases. |
| HttpParse.ParseLine | code/devcore/uhttp/src/parser.c:63-106 | What one header line does to the fields, and when it is an error; the spellings of Content-Length it knows are `AnySpelling`. |
| HttpParse.ParseHeaders | code/devcore/uhttp/src/parser.c:43-110 | The line loop equals the specification, including the last line it never stores. |
| HttpParse.ParseRequestBytes | code/devcore/uhttp/src/parser.c:112-227 | OK, ERROR or INCOMPLETE with every field, for every input; `RequestParsed` says which for every message made of good fields. |
| HttpParse.ParseRequestHead | code/devcore/uhttp/src/parser.c:132-203 | Method, path and fields, and every rejection. |
| HttpParse.ParseResponseBytes | code/devcore/uhttp/src/parser.c:229-350 | OK, ERROR or INCOMPLETE with every field, the fixed content type included, for every input; `ResponseParsed` says which for every message made of good fields. |

## Left out

RUDP:

- RudpTheorems.DeliveryIsPrefix: bounded by fewer than 2^32 - 129 sends per direction, because beyond that the window test mistakes old frames (`StaleFrameMistaken`); the other run theorems on safety, progress and closing time share the bound.
- RudpConnection.Connection.Close: freeing the connection object, its place in the dispatcher's table and a later connection under the same uid are not modelled; the runs of RudpSystem have no FIN step. Allocation failure is not modelled either.
- RudpConnection.Connection.Timeouts: the branch that drops a pending entry with a null packet, which no modelled operation creates.
- Frames forged under another node's uid: the network holds only what the two endpoints sent, and applications send DATA packets under their own uid.
- Fields no modelled decision reads: `last_sended_ack`, `last_recved_ack`, `oldest_timestamp`, the state enum and `send_timestamp`.
- The size_t and int64 widths of counters and times; sequence numbers, which do wrap, are 32-bit.

Punch handshake and peer table:

- PunchProtocol.QuietMeansActive: no message loss, which `PunchLoss` adds; no removal or re-adding of a peer and no HELLO; each handler runs atomically.
- `last_seen` updates, dead-peer removal, waiting on a state, HELLO/HELLO2, PING/PONG, STATE.

Wire and encrypted session:

- Wire.LowSend: the caller's declared data size equals the payload carried; freeing the record is not modelled.
- SecureStream.HeardIsExact: one direction at a time, from paired sessions on, with fewer than 2^64 encryptions, with repeated handshakes that keep the key pairs, and no other application sending or receiving on the same connection.
- E2ee.PairedExactly: handshakes that verify under the peer's key without carrying the peer's public half are excluded, which is what a signature is assumed to prevent; replayed handshakes are included.
- Cryptographic strength, key loading, saving and wiping.

Containers:

- HashTable.Table.Erase: chains are sequences, so node pointers, their order of freeing and aliasing between tables are not captured; `ht_swap`, `ht_move` and `ht_destroy` are left out.
- RingQueue.Queue.Push: sequential behaviour, as under the queue's lock; no allocation failure.
- `dyn_array_resize`, `dyn_array_from_c`, `dyn_array_setself`, sorting and counting.

Gossip, query, HTTP:

- `gossip_cleanup`, entry creation and the gossip daemon.
- HttpPrint.BuildResponse: the printed bytes are not promised for a status of five or more characters, where the source runs out of its own buffer.
- HttpTheorems.ResponseFieldsRecovered: for keys without a colon, values without a leading space and both under 256 bytes; the parser splits and trims others differently (`LineSkipped`, `SpacesDropped`).
- Null pointers and allocation failure in the parsers and printers, parameter and route helpers.

Elsewhere:

- TURN, STUN and NAT probing, the state server, sockets, threads, locks and event queues, the SOCKS5 proxy, the QUIC stubs, logging, the command line and the Python client.
