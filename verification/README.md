# Verified models of the course networking stack

This project models, in Dafny, the parts of the repository that carry its hard guarantees, and
proves those guarantees for all inputs and all runs:

* the Internet checksum that both labs share (`Checksum.dfy`, over the fixed-width values of
  `Machine.dfy`);
* the cTCP sender and receiver of lab 3 (`Ctcp.dfy` and the modules named after it), the linked
  list they use (`LinkedList.dfy`, with the two segment lists in `CtcpLists.dfy`), conversion
  between segments and IP datagrams (`Conversion.dfy`, its bytes in `ConversionBytes.dfy`) and
  the asynchronous output queue (`OutputQueue.dfy`);
* the router of lab 1: longest-prefix match (`Lpm.dfy`), IP forwarding and ICMP
  (`Forwarding.dfy`, `Router.dfy`, the bytes of every answer in `ForwardingBytes.dfy`), the ARP
  cache, request queue and frames (`Arp.dfy` and the modules named after it), the hardware-info
  message (`HwInfo.dfy`) and SHA-1 (`Sha1.dfy`, the standard's sample digests in
  `Sha1Vectors.dfy`).

Code that works by changing things is modelled by classes, arrays and loops. Each such method
is proved equal to a function on values (`View() == F(old(View()))`), and what the source
promises is proved about those functions, mostly as invariants of every run, and for whatever
leaves a host as its bytes at the offsets of the standard in question. Congestion
control, `write()`, clocks and the network are arbitrary: they enter as parameters over which
every result quantifies. Every result that mentions a byte order holds for both.

## Findings

Where a promise does not hold of the code in every case, the exact condition is proved.

* In every state the sender can reach, whatever the acknowledgment number, the ACK loop removes
  exactly the leading run of segments below it for every choice of congestion control if and only if the state
  and the number pass a check on the two lists and the window counter; a number beyond what was
  sent can take along segments the nested window send has just moved
  (`CtcpLimits.AckLoopExact`), and three one-byte reads lead to such a state
  (`CtcpWitness.OverrunIsReached`). The same check, with one on the leading run, says exactly
  when an acknowledgment of d segments removes no others (`CtcpLimits.RemovesOnlyAcknowledged`).
  While fewer than 2^32 - 1 bytes are read, a number the peer's receiver sends never removes
  more than what had arrived (`CtcpOrder.HonestAckLoop`).
* In every run in which all acknowledgment numbers are ones the stream has, and fewer than
  2^33 - 11520 bytes are read, the sender does not get past the wrap of its sequence numbers: the
  segment that reaches number 2^32 is never taken off, because no such number exceeds its own
  (`CtcpStall.NothingPastTheWrap`).
* `prev_sent_time` is written before the pacing wait, so a timer transmission is more than
  `rt_timeout` after the real departure if and only if that wait was zero
  (`CtcpPacing.PacingEatsTimeout`). Over a whole run at most one retransmission of a segment
  comes early, the one right after a paced window send (`CtcpPacing.OnlyPacedSendsAreEarly`).
  With pacing taken as arbitrary, for every timeout and every wait above zero one does
  (`CtcpPacing.EarlyIsReached`).
* When a write to the output was partial, the drain that completes it calls `ctcp_output`
  back; with nothing pending this calls `conn_output` with length 0, which ends the output
  (`OutputQueue.IdleDrainEndsStream`). A write error ends it too, and `ctcp_output` ignores the
  -1 it gets. What arrives afterwards is acknowledged and lost. In every run at whose end the
  sender is alive, whatever acknowledgment comes next, all it has let go of has been output if
  and only if no first copy arrived after such a callback or error; a destroyed sender lets go
  of nothing more (`CtcpClosing.RemovalIffNoLateCopy`). A run of four events in which data is
  lost is `CtcpWitness.CallbackLosesData`.
* The receiver acknowledges every segment exactly once if and only if `ctcp_output` was never
  called back; each callback sends one acknowledgment more. Copies that arrive later are
  dropped without an answer, so without a callback nothing replaces a lost last acknowledgment
  (`CtcpTransfer.TransferIsSafe`).
* Copies of a stream taken in order are all dropped if and only if no segment has a number at
  or above the next one (`CtcpWrap.CopiesDroppedIff`). Up to 2^32 - 1 bytes that means: if and
  only if the numbers did not wrap, and at exactly 2^32 - 1 bytes every old copy is output again
  (`CtcpWrap.CopiesDroppedIffNoWrap`, `CtcpWitness.FilledRepeats`). Longer streams meet the
  condition only when they end less than one full segment below a wrap
  (`CtcpWrap.LongStreamsRepeat`).
* The receiver puts out the segments of a stream of any length each once and in order if and
  only if each arrival is the next segment or has a number below the next one's
  (`CtcpArrivals.InOrderIffInPlace`). For fewer than 2^32 - 1 bytes that means: if and only if
  no segment arrives ahead of a missing one (`CtcpArrivals.InOrderIffNoGap`).
* The receiver takes the length for its checksum test from `strlen`. An intact segment passes
  if and only if the words after the first NUL of its data sum to 0 modulo 65535: always
  without a NUL, but with the data 0, 1 never, however often it is sent
  (`Conversion.StringTestIff`, `Conversion.NulIsRefused`).
* A segment with more than 8192 data bytes never passes the space test of `ctcp_output`,
  although segments may carry 11520 (`OutputQueue.GatedAccepts`).
* A segment that finds no room waits in one place, which the next segment takes over. Its data
  is output if and only if a drain makes room for it before that; in either case both segments
  count as received, so that a copy is dropped (`CtcpSteps.WaitingDataIsLostIff`).
* The acknowledgment of a FIN does not cover the FIN, and a FIN is never sent again. Once the
  input has ended and a FIN has come in, the next segment with the ACK flag destroys the
  connection, also one that acknowledges nothing; segments still unacknowledged are never sent
  again (`CtcpEnd.FirstFinIsAnswered`, `CtcpEnd.WhyDestroyed`, `CtcpSteps.EndDropsUnacked`).
* The ARP lookup returns the last matching slot, new bindings take the first free one. The
  newest live binding answers if and only if no other live binding for the address lies in a
  higher slot (`ArpBindings.AnswersIffHighest`); in `ArpBindings.OlderBindingAnswers` an older
  one hides it.
* The int-length `cksum` of the router equals RFC 1071 if and only if the plain word sum is
  below 2^32; up to 131074 bytes it always is, for 131076 bytes of 0xff it is not
  (`Checksum.CksumIntExact`, `Checksum.CksumIntFails`).
* Frames that wait for an ARP reply leave by the interface at which the reply came in,
  whichever interface they were queued for (`ArpDelivery.SentAsQueued`).
* A frame that arrives with TTL 0 is forwarded with TTL 255 (`Forwarding.ForwardedIsGood`,
  `Forwarding.HopLimit`).
* The hardware-info round trip is exact if and only if every name is free of NUL and at most
  32 bytes long (`HwInfo.RoundTripIff`).

Comments the code does not follow, where the model follows the code:

* `conn_output` is said to return the number of bytes written; it returns the full length also
  when part or all of it was only queued (lab3/ctcp_sys_internal.c:918, 987).
* `sr_arpcache_init` announces that a full cache evicts a random entry; a full cache drops the
  new binding (lab1/router/sr_arpcache.c:277, 208).

## Model

| member | source | states |
|---|---|---|
| Checksum.Cksum | lab3/ctcp_utils.c:3-17 | for every 16-bit length the result is htons of the RFC 1071 checksum; the 32-bit accumulator never wraps |
| Checksum.CksumInt | lab1/router/sr_utils.c:8-20 | the int-length version finishes the word sum modulo 2^32; lengths of zero or less read nothing |
| Checksum.CksumIntExact | lab1/router/sr_utils.c:8-20 | it is the RFC 1071 checksum if and only if the exact word sum is below 2^32 |
| Checksum.CksumIntOnFrames | lab1/router/sr_utils.c:8-20 | on up to 131074 bytes it always is |
| Checksum.CksumIntFails | lab1/router/sr_utils.c:8-20 | on 131076 bytes of 0xff it is not |
| Checksum.FoldAndFinish | lab3/ctcp_utils.c:12-16 | for every 32-bit sum the result is htons of the complement of its fold, 0xffff in place of 0 |
| Checksum.FoldPreserves | lab3/ctcp_utils.c:12-14 | folding ends in 16 bits, keeps the sum modulo 65535, and gives 0 only for the sum 0 |
| Checksum.FoldIsOnesSum | lab3/ctcp_utils.c:7-14 | folding the plain sum of the words is their one's complement sum |
| Checksum.ClosedForm | lab3/ctcp_utils.c:12-16 | the checksum is 65535 minus the word sum modulo 65535, hence never 0 |
| Checksum.AcceptsIffAllOnes | lab1/router/sr_router.c:182-191 | zero-and-recompute accepts exactly when the one's complement sum with the field is 0xffff and the field is not 0 |
| Checksum.AcceptsIffField | lab1/router/sr_router.c:182-191 | the outcome is a comparison of wire words and does not depend on the host's byte order |
| Checksum.FilledIsAccepted | lab1/router/sr_router.c:283-288 | a field that was zeroed, computed and stored passes the test on any host |
| Checksum.FlipChangesChecksum | lab3/ctcp_sys_internal.h:246-250 | inverting any one bit of a byte string of any length changes its checksum |
| Checksum.FlipInvertsOneBit | lab3/ctcp_sys_internal.h:246-250 | the bit asked for is inverted, those below and above it stay |
| Checksum.ExampleOfTheRfc | lab3/ctcp_utils.c:3-17 | the numerical example of section 3 of RFC 1071: sum ddf2, checksum 220d |
| DoublyLinkedList.Add | lab3/ctcp_linked_list.c:33-53 | appends the object; null list or object changes nothing and gives null |
| DoublyLinkedList.AddFront | lab3/ctcp_linked_list.c:55-75 | prepends the object |
| DoublyLinkedList.AddAfter | lab3/ctcp_linked_list.c:77-95 | inserts right after the given member, wherever it is |
| DoublyLinkedList.Remove | lab3/ctcp_linked_list.c:97-118 | deletes exactly the given member and returns its object |
| DoublyLinkedList.Find | lab3/ctcp_linked_list.c:120-132 | gives the first node with the object, null if and only if there is none |
| DoublyLinkedList.LinkedList.Append | lab3/ctcp_linked_list.c:37-52 | next, prev, head, tail and the 32-bit length stay consistent with the sequence with the node at its end |
| DoublyLinkedList.LinkedList.Unlink | lab3/ctcp_linked_list.c:102-115 | the same for the sequence without the node, at either end or inside |
| DoublyLinkedList.LinkedList.InsertAfter | lab3/ctcp_linked_list.c:81-94 | the same for the sequence with a node inside or at the end |
| CtcpLists.SegLists.Wait | lab3/ctcp.c:572-580 | a new wrapper joins the linked list of waiting segments, apart from all others |
| CtcpLists.SegLists.MoveFirst | lab3/ctcp.c:489-493 | the first waiting wrapper moves behind the unacked ones; both lists stay well formed and share no node or wrapper |
| CtcpLists.SegLists.DropFirst | lab3/ctcp.c:340 | the first unacked node leaves, the others keep their places |
| CtcpLists.SegLists.MarkSent | lab3/ctcp.c:519-533 | the wrapper of one node is updated in place; no other entry of either list changes |
| CtcpLists.SegLists.MarkResent | lab3/ctcp.c:448-450 | the same for the timer's update |
| CtcpConnection.CtcpState.AckRound | lab3/ctcp.c:277-345 | the node after the removed one is the first of the list again, although the nested send has appended to it |
| CtcpConnection.CtcpState.constructor | lab3/ctcp.c:115-155 | a new connection is in the initial state of the run results |
| CtcpConnection.CtcpState.PrepDataSegment | lab3/ctcp.c:555-586 | a data segment with the next sequence number joins the waiting list |
| CtcpConnection.CtcpState.SlideWindow | lab3/ctcp.c:487-494 | moves waiting segments while the 16-bit window counter is below the send window |
| CtcpConnection.CtcpState.SendUnsent | lab3/ctcp.c:513-551 | transmits every unacked segment not in flight, in list order |
| CtcpConnection.CtcpState.SendSlidingWindow | lab3/ctcp.c:482-553 | slides, then sends unless the congestion gate is closed |
| CtcpConnection.CtcpState.SendNonDataSegment | lab3/ctcp.c:591-603 | sends a segment without data that carries the current numbers |
| CtcpConnection.CtcpState.Read | lab3/ctcp.c:195-230 | reads until nothing or end of file; the FIN goes out when nothing waits |
| CtcpConnection.CtcpState.RemoveAcknowledged | lab3/ctcp.c:277-350 | the ACK loop with its nested window send, for every congestion control |
| CtcpConnection.CtcpState.AcceptSegment | lab3/ctcp.c:353-377 | the duplicate test, the two acknowledgment numbers and the output of new data |
| CtcpConnection.CtcpState.Receive | lab3/ctcp.c:232-378 | every branch of the receive handler |
| CtcpConnection.CtcpState.CtcpOutput | lab3/ctcp.c:380-396 | acknowledges and writes when the buffer has room for all of it |
| CtcpConnection.CtcpState.ResendTimedOut | lab3/ctcp.c:433-461 | the retransmission loop, which stops at a destroyed connection |
| CtcpConnection.CtcpState.Timer | lab3/ctcp.c:433-475 | one connection's share of a timer pass, with the closing wait |
| CtcpConnection.CtcpState.Handle | lab3/ctcp.c:195-475 | every handler takes the object from one state of the run results to the next |
| CtcpConnection.CtcpState.HandleAll | lab3/ctcp.c:195-475 | so what is proved of runs holds of the object after any sequence of calls |
| CtcpSender.Conservation | lab3/ctcp.c:277-350 | in every reachable state removed, unacked and waiting data, in this order, are all bytes read; sequence numbers follow without a gap and end at curr_seqno |
| CtcpSender.RetransmissionBound | lab3/ctcp.c:434-461 | at most one window send and five timer sends of a segment, each timer send more than rt_timeout after its previous time stamp; a live connection holds no segment with five |
| CtcpSender.WindowAccounting | lab3/ctcp.c:487-494 | the counter is the unacked lengths minus all retransmitted lengths modulo 2^16; without retransmission and up to send window 53996 it is exact and overshoots by less than one full segment |
| CtcpOrder.HonestAckLoop | lab3/ctcp.c:277-350 | while fewer than 2^32 - 1 bytes are read, an acknowledgment the receiver really sent removes only segments that had arrived, whatever moves in between |
| CtcpOrder.SendWindowInOrder | lab3/ctcp.c:482-553 | first copies leave in sequence order and before anything is removed |
| CtcpOrder.TimerFromInOrder | lab3/ctcp.c:434-461 | so they do when the timer sends a segment first |
| CtcpSteps.AllIsRead | lab3/ctcp.c:208-212 | everything conn_input hands out becomes one segment after the other, with its data and the next number |
| CtcpSteps.WindowIsFilled | lab3/ctcp.c:487-494 | the first waiting segments move, in order, each finding the counter below the send window, until none waits or the counter has reached it |
| CtcpSteps.AllIsSent | lab3/ctcp.c:513-551 | the log grows by exactly the segments not in flight, in order, and they are in flight afterwards |
| CtcpSteps.NothingUnsent | lab3/ctcp.c:482-553 | after a window send with the gate open every unacknowledged segment is in flight |
| CtcpSteps.AllIsResent | lab3/ctcp.c:433-461 | every segment whose time is over is sent again once, up to the one sent again for the fifth time, which destroys the connection |
| CtcpSteps.RoomDecides | lab3/ctcp.c:380-396 | without room for all waiting data nothing happens; with room it is output and one acknowledgment sent |
| CtcpSteps.WaitingDataIsLostIff | lab3/ctcp.c:365-375 | of two segments in order, of which the first finds no room, the first is output if and only if a drain between them makes room; the number expected next is past both either way |
| CtcpEnd.FinOnce | lab3/ctcp.c:217-225 | in every run no FIN has been sent before the end of the input and exactly one after it, numbered behind the last byte read, with nothing waiting for the window |
| CtcpEnd.FinSentIff | lab3/ctcp.c:217-225 | the next event sends it if and only if it finds the input at its end and leaves nothing waiting |
| CtcpEnd.FirstFinIsAnswered | lab3/ctcp.c:258-266 | the first FIN of the peer adds one acknowledgment, with the number from before the FIN, ends the output and changes nothing else |
| CtcpEnd.FinReceivedIff | lab3/ctcp.c:258-266 | in every run the FIN flag is set if and only if an intact FIN has arrived, and then the output is closed |
| CtcpEnd.WhyDestroyed | lab3/ctcp.c:272-475 | in every run the next event destroys the connection if and only if it is an acknowledgment after both directions ended, or a timer pass that sends a segment for the fifth time again or ends the closing wait; that wait ends only more than two timeouts after a timer pass that found the connection done |
| CtcpEnd.AcknoFollowsLast | lab3/ctcp.c:353-363 | in every run the acknowledgment number is the end of the segment that arrived last, also of an old one |
| CtcpEnd.ControlsAreCurrent | lab3/ctcp.c:591-603 | in every run each event sends at most one segment without data; it has the number behind the last byte read, the acknowledgment of the last segment that arrived, and ACK or FIN |
| CtcpSteps.EndDropsUnacked | lab3/ctcp.c:272-275 | an acknowledgment after both directions ended destroys the connection with whatever is unacknowledged, and no later event sends anything |
| CtcpTransfer.TransferIsSafe | lab3/ctcp.c:353-396 | in every run of a one-way transfer over the channel described in the file, output is a prefix of input; it is the data, each once and in order, of the first copies that found the output open; every acknowledgment is cumulative and honest; each arrived segment was acknowledged exactly once if and only if no drain called back |
| CtcpClosing.RemovalIffNoLateCopy | lab3/ctcp_sys_internal.c:643-680 | for every run with drains and write errors, whatever acknowledgment comes next: all data the sender removed has been output if and only if, for a living sender, no first copy arrived after a callback or write error had closed the output, and for a destroyed one, the segments removed are among those output |
| CtcpClosing.LateCopyIsLost | lab3/ctcp.c:380-396 | after such a late copy some acknowledgment already sent makes the sender remove data that was not output |
| CtcpWitness.CallbackLosesData | lab3/ctcp_sys_internal.c:926-929 | two bytes are read and both segments arrive in order, one byte is output, and an acknowledgment removes both |
| CtcpWitness.OverrunIsReached | lab3/ctcp.c:277-350 | a run from the initial state after which the ACK loop can remove more than the leading run |
| CtcpWitness.FilledRepeats | lab3/ctcp.c:355-363 | a stream of 2^32 - 1 bytes is output in full, and then a copy of any segment is output again |
| CtcpLimits.AckLoopTakesLeadingRun | lab3/ctcp.c:277-350 | the loop removes exactly the leading run below the number, in order, if this run ends within the unacked list |
| CtcpLimits.AckLoopExact | lab3/ctcp.c:277-350 | in every reachable state, also after a wrap, and for every number: it does so for every congestion control if and only if it cannot overrun |
| CtcpLimits.RemovesOnlyAcknowledged | lab3/ctcp.c:277-350 | an acknowledgment of d transmitted segments removes no others for every congestion control if and only if the leading run ends by then and it cannot overrun |
| CtcpStall.LoopBeforeWrap | lab3/ctcp.c:277-350 | below 2^33 - 11520 bytes a number the stream has, also one beyond the wrap, removes only what it acknowledges and nothing that reaches the wrap |
| CtcpStall.NothingPastTheWrap | lab3/ctcp.c:277-350 | in every run with such numbers only, the segment that reaches 2^32 and all after it stay on the sender's lists |
| CtcpPacing.PacingEatsTimeout | lab3/ctcp.c:519-530 | spacing from the real departure holds if and only if there was no pacing wait |
| CtcpPacing.OnlyPacedSendsAreEarly | lab3/ctcp.c:434-530 | in every run a retransmission is at most rt_timeout after the departure before it only if that departure had waited for its slot, and so at most once for each segment |
| CtcpPacing.EarlyIsReached | lab3/ctcp.c:519-530 | for every timeout and every wait of the second segment, pacing being arbitrary, a run in which only the second segment's retransmission can be early and is if and only if the wait is above zero |
| CtcpWrap.InOrderIsTaken | lab3/ctcp.c:355-375 | a stream of any length that arrives in order is output in full, also across a wrap of the numbers |
| CtcpWrap.CopiesDroppedIff | lab3/ctcp.c:355-363 | after a stream of any length all copies are dropped if and only if no segment has a number at or above the next one |
| CtcpWrap.CopiesDroppedIffNoWrap | lab3/ctcp.c:355-363 | up to 2^32 - 1 bytes: if and only if the numbers did not wrap |
| CtcpWrap.LongStreamsRepeat | lab3/ctcp.c:355-363 | a longer stream drops all copies only if its next number is within 11520 of 2^32 |
| CtcpArrivals.InOrderIffInPlace | lab3/ctcp.c:355-375 | for streams of any length the output is the data of the segments taken, and these are the first ones, in order and once, if and only if each arrival is the next one or numbered below it |
| CtcpArrivals.InOrderIffNoGap | lab3/ctcp.c:355-375 | for fewer than 2^32 - 1 bytes: if and only if no arrival runs ahead |
| Conversion.ConvertToDatagram | lab3/ctcp_sys_internal.c:376-418 | builds the datagram of the specification field by field and leaves the segment unchanged |
| Conversion.ConvertToCtcp | lab3/ctcp_sys_internal.c:334-365 | builds the segment of the specification and leaves th_sum zero; null for a total length below 40 or beyond the payload, where the source reads past the packet |
| Conversion.DatagramBuffer.constructor | lab3/ctcp_sys_internal.h:217-238 | the empty datagram with its IP header checksum |
| Conversion.DatagramBuffer.CksumTcp | lab3/ctcp_sys_internal.h:191-206 | RFC 1071 over pseudoheader, TCP header and data |
| Conversion.CksumSegment | lab3/ctcp_sys_internal.c:408-411 | the checksum with the field taken as zero; the field is restored |
| Conversion.FlipBit | lab3/ctcp_sys_internal.h:246-250 | inverts one bit of the memory |
| Conversion.ConversionRoundTrip | lab3/ctcp_sys_internal.c:334-418 | there and back between mirrored connections restores numbers, length, window, data and the low eight flag bits; the checksum error is the same modulo 2^16 even when ACK is added |
| Conversion.PaddingIgnored | lab3/ctcp_sys_internal.c:334-365 | bytes behind the total length make no difference |
| ConversionBytes.TcpHeaderOnWire | lab3/ctcp_sys_internal.c:389-407 | on either host: the sender's port, the peer's, both numbers plus the two initial ones modulo 2^32, data offset, flags (towards the web with the ACK bit), window and urgent pointer, at the offsets of section 3.1 of RFC 793 |
| ConversionBytes.IpHeaderOnWire | lab3/ctcp_sys_internal.h:217-238 | on either host: version, total length, identification, TTL, protocol and both addresses at the offsets of section 3.1 of RFC 791; header sum all ones; the data behind the headers |
| ConversionBytes.TcpChecksumIsValid | lab3/ctcp_sys_internal.c:408-418 | for a segment with the right checksum the sum over pseudoheader, TCP header and data is all ones |
| ConversionBytes.SegmentLayout | lab3/ctcp_sys.h:45-55 | the fields of a segment lie in memory at their offsets, in network order |
| Conversion.IpHeaderIsValid | lab3/ctcp_sys_internal.h:235-236 | every datagram leaves with one's complement header sum 0xffff |
| Conversion.IntactIsAccepted | lab3/ctcp.c:243-254 | the checksum carried equals the correct one if and only if the segment passes zero-and-recompute over its whole length |
| Conversion.StringTestIff | lab3/ctcp.c:243-254 | an intact segment passes the test over strlen bytes if and only if what follows the first NUL of its data sums to 0 modulo 65535 |
| Conversion.NulIsRefused | lab3/ctcp.c:243-254 | an intact segment with the data 0, 1 fails it |
| Conversion.CorruptionDetected | lab3/ctcp_sys_internal.c:864-880 | after any flipped bit the segment fails the test, before and after conversion |
| Conversion.LayoutInverse | lab3/ctcp_sys.h:45-55 | reading a segment from its bytes and writing it again gives the same bytes |
| OutputQueue.Conn.BufSpace | lab3/ctcp_sys_internal.c:616-625 | 8192 less the unwritten bytes of all chunks, 0 when they are more |
| OutputQueue.Conn.LinkLast | lab3/ctcp_sys_internal.c:975-977 | the chunk becomes last and the tail pointer designates its link |
| OutputQueue.Conn.ConnOutput | lab3/ctcp_sys_internal.c:920-988 | new queue, flags and return value for every outcome of write |
| OutputQueue.Conn.WriteOut | lab3/ctcp_sys_internal.c:643-670 | the drain loop over every sequence of write outcomes |
| OutputQueue.Conn.ConnDrain | lab3/ctcp_sys_internal.c:632-680 | new state, and whether ctcp_output is called back |
| OutputQueue.NothingLost | lab3/ctcp_sys_internal.c:920-988 | over any calls and write outcomes, written bytes then queued remainders are the accepted buffers |
| OutputQueue.ReturnValue | lab3/ctcp_sys_internal.c:918-988 | the length if and only if the bytes are accepted, -1 if and only if the output has failed and not ended, otherwise 0 and nothing changes |
| OutputQueue.DrainEmpties | lab3/ctcp_sys_internal.c:643-675 | if each chunk is taken whole, all that was accepted has been written and nothing stays queued |
| OutputQueue.SilentDrainMovesNothing | lab3/ctcp_sys_internal.c:643-680 | a drain without a callback has written nothing; without a successful write there is no callback |
| OutputQueue.GatedQueueIsBounded | lab3/ctcp.c:388-392 | if every caller checks the space first, at most 8192 bytes are ever queued |
| OutputQueue.GatedAccepts | lab3/ctcp.c:388-392 | when exactly a gated buffer is accepted; more than 8192 bytes never are |
| OutputQueue.IdleDrainEndsStream | lab3/ctcp_sys_internal.c:926-929 | a callback after a drain ends the stream if and only if nothing is pending, and then nothing is accepted any more |
| Sha1.HashChunks | lab1/router/sha1.c:71-185 | for every way of cutting a message the result is the digest of FIPS PUB 180-1, refused exactly from 2^64 bits on |
| Sha1.Sha1Context.Reset | lab1/router/sha1.c:71-85 | an empty message is being hashed |
| Sha1.Sha1Context.Input | lab1/router/sha1.c:143-185 | the bytes join the message; corrupted after the end or when the length reaches 2^64 bits |
| Sha1.Sha1Context.AddByte | lab1/router/sha1.c:158-184 | one byte keeps buffer index, the two length words and the digest of the whole blocks right |
| Sha1.Sha1Context.Schedule | lab1/router/sha1.c:224-235 | the 80 schedule words of section 7 |
| Sha1.Sha1Context.EightyRounds | lab1/router/sha1.c:243-293 | the four loops are the 80 rounds of section 7 |
| Sha1.Sha1Context.ProcessMessageBlock | lab1/router/sha1.c:207-301 | one block is compressed into the digest |
| Sha1.Sha1Context.PadMessage | lab1/router/sha1.c:326-371 | one or two blocks of padding complete the digest of the message |
| Sha1.Sha1Context.Result | lab1/router/sha1.c:104-119 | the digest, computed once; refused if and only if corrupted |
| Sha1.BlocksAppend | lab1/router/sha1.c:178-181 | compressing one more block extends the digest of the blocks before it |
| Sha1.PaddingShape | lab1/router/sha1.c:334-356 | the padding of section 4 is what the two branches write |
| Sha1.CountByte | lab1/router/sha1.c:163-176 | the two 32-bit words count bits exactly and overflow first at 2^64 |
| Sha1Vectors.ChooseBit | lab1/router/sha1.c:243-254 | the function of the first twenty rounds has, at every position, the bit of C where B has a one and that of D where B has a zero |
| Sha1Vectors.MajorityBit | lab1/router/sha1.c:269-280 | the function of the third twenty rounds has the bit that at least two words have |
| Sha1Vectors.ParityLeavesThird | lab1/router/sha1.c:256-293 | the function of the other rounds is symmetric, and of two equal words leaves the third |
| Sha1Vectors.RotlBit | lab1/router/sha1.c:46-47 | a rotation by 1, 5 or 30 moves the bit at i to (i + n) modulo 32 |
| Sha1Vectors.DigestOfAbc | lab1/router/sha1.c:71-301 | the digest of "abc" in Appendix A of FIPS PUB 180-1, one block |
| Sha1Vectors.DigestOfAlphabet | lab1/router/sha1.c:71-371 | the digest of the 56 characters of Appendix B, two blocks |
| Lpm.LongestPrefixMatch | lab1/router/sr_router.c:361-381 | on any table and address, the choice that LpmIsLongest characterises |
| Lpm.LpmIsLongest | lab1/router/sr_router.c:361-381 | nothing is found if and only if no route covers the address, otherwise the first of the longest covering routes, for contiguous masks |
| Lpm.ChoiceIsHostIndependent | lab1/router/sr_router.c:361-381 | hosts of different byte order with the same tables choose the same route |
| Lpm.SwapKeepsOrder | lab1/router/sr_router.c:372 | byte-swapped contiguous masks compare like their prefix lengths |
| Lpm.AndIsAgree | lab1/router/sr_router.c:369-370 | the masked comparison is agreement on that many leading bits |
| Router.TestField | lab1/router/sr_router.c:182-191 | the test; the buffer is unchanged whatever the outcome |
| Router.FillField | lab1/router/sr_router.c:283-286 | the field is zeroed, recomputed and stored; nothing else changes |
| Router.OwnAddress | lab1/router/sr_router.c:247-265 | the first interface with the address; none if and only if no interface has it |
| Router.GetInterface | lab1/router/sr_if.c:37-55 | the first interface with the name; none if and only if no interface has it |
| Router.TakeHop | lab1/router/sr_router.c:280-286 | TTL and checksum rewriting in the buffer, with the 8-bit wrap |
| Router.SendIcmpEcho | lab1/router/sr_router.c:383-415 | the echoed frame, in a new buffer |
| Router.SendIcmpError | lab1/router/sr_router.c:417-450 | the ICMP error frame, in a new buffer; null below 38 bytes, where the source writes past the buffer |
| Router.ReplyTo | lab1/router/sr_router.c:315-359 | for a frame to the router itself: echo if ICMP and intact, drop if damaged or short, port unreachable otherwise; the buffer is unchanged |
| Router.NextHopOf | lab1/router/sr_router.c:267-313 | for any other frame: net unreachable without a route, time exceeded at TTL 1, otherwise the rewritten frame with its gateway and the interface of the route, no defined outcome if that interface does not exist |
| Router.HandleIp | lab1/router/sr_router.c:172-208 | the whole decision (drop, answer, forward to whom); a dropped frame is left unchanged in the buffer, a forwarded one is what the buffer holds |
| Forwarding.PaddingKeepsAccepts | lab1/router/sr_router.c:446 | a checksum over the first part is right for the whole when zeros follow |
| Forwarding.ForwardedIsGood | lab1/router/sr_router.c:280-286 | a forwarded frame passes the header test; only TTL and checksum changed |
| Forwarding.IcmpFrameIsGood | lab1/router/sr_router.c:397-413 | an ICMP frame passes the header and the body test and goes back to the sender |
| Forwarding.SentFramesAreGood | lab1/router/sr_router.c:172-208 | every frame sent for an IP frame passes the next router's tests, on hosts of any byte order |
| Forwarding.ForwardsToLongest | lab1/router/sr_router.c:267-313 | a frame that is forwarded was intact, for no own interface, covered and not at TTL 1, and goes to gateway and interface of the first longest route; such a frame is forwarded if the interfaces of the table exist |
| Forwarding.LoadedAddress | lab1/router/sr_router.c:272 | on either host the integer read from the header stands for the address in network order |
| Forwarding.RepliesAreNeverDropped | lab1/router/sr_router.c:172-208 | no router with any tables drops a frame another router made |
| Forwarding.FaultyIff | lab1/router/sr_router.c:267-450 | exactly when there is no defined outcome: an answer without room for its ICMP header or with an unknown arrival interface, or a route with an unknown interface |
| Forwarding.HopLimit | lab1/router/sr_router.c:280-312 | on any path of routers a frame is forwarded at most TTL - 1 times (255 from TTL 0) and its contents arrive unchanged |
| ForwardingBytes.TestsAreSums | lab1/router/sr_router.c:182-191 | on either host the two tests ask for room, a one's complement sum of all ones and a checksum that is not zero |
| ForwardingBytes.DroppedIff | lab1/router/sr_router.c:172-344 | a frame is dropped if and only if its header fails the test, or it is an ICMP frame for an own address whose ICMP message does |
| ForwardingBytes.MatchIsBytewise | lab1/router/sr_router.c:369-370 | the masked comparison of two integers is that of the four bytes of each address |
| ForwardingBytes.NetUnreachable | lab1/router/sr_router.c:272-276 | without a covering route the answer is ICMP type 3, code 0 to the sender's MAC and IP address, from those of the arrival interface |
| ForwardingBytes.TimeExceeded | lab1/router/sr_router.c:417-450 | with a route and at TTL 1 it is type 11, code 0 |
| ForwardingBytes.PortUnreachable | lab1/router/sr_router.c:315-359 | to an own address, other than ICMP, it is type 3, code 3, from the address it was sent to |
| ForwardingBytes.EchoReply | lab1/router/sr_router.c:383-415 | an intact ICMP message to an own address is answered by type 0, code 0 with the rest of the request, from the address it was sent to |
| ForwardingBytes.ForwardedBytes | lab1/router/sr_router.c:280-286 | a forwarded frame has the TTL one lower, a right checksum, and is else the frame that arrived |
| ArpCacheState.ArpCache.LookupEntry | lab1/router/sr_arpcache.c:104-126 | the last valid entry for the address |
| ArpCacheState.ArpCache.QueueReq | lab1/router/sr_arpcache.c:134-173 | there is one request for the address and the copied frame is its newest |
| ArpCacheState.ArpCache.Insert | lab1/router/sr_arpcache.c:179-218 | the request for the address is unlinked and the first free slot takes the binding |
| ArpCacheState.ArpCache.Destroy | lab1/router/sr_arpcache.c:222-258 | exactly the given request leaves the queue with its packets |
| ArpCacheState.ArpCache.HandleArpreq | lab1/router/sr_arpcache.c:36-98 | nothing within a second, otherwise a broadcast, or the end after five |
| ArpCacheState.ArpCache.SweepReqs | lab1/router/sr_arpcache.c:25-34 | the walk that saves the successor handles the requests present at its start |
| ArpCacheState.ArpCache.Timeout | lab1/router/sr_arpcache.c:307-318 | entries older than 15 seconds become invalid, then each pending request is handled |
| ArpCacheState.ArpCache.ForwardTo | lab1/router/sr_router.c:291-303 | on a hit the frame leaves at once with the cached MAC as destination, that of the leaving interface as source and the rest as it was, and nothing changes; otherwise the frame is queued and its request handled |
| ArpCacheState.ArpCache.HandleReply | lab1/router/sr_router.c:123-143 | the waiting frames leave in list order by the interface the reply came in at, each with the learned MAC as destination, that of the interface as source and the rest as it was |
| ArpDrops.DroppedAfterRetries | lab1/router/sr_arpcache.c:36-98 | after every run, what the next event drops is exactly the packets of requests with five broadcasts, the last at least a second ago, and these requests are gone |
| ArpDrops.EveryLossIsExplained | lab1/router/sr_arpcache.c:36-98 | in every run each dropped packet was in a request given up after five broadcasts, which never is pending again |
| ArpRuns.PacketConservation | lab1/router/sr_arpcache.c:134-258 | in every run each queued packet is in exactly one place: one pending request, sent once, or dropped (ArpDrops says when); no two requests share an address; newest packets first |
| ArpRuns.ReplySendsNewestFirst | lab1/router/sr_router.c:126-143 | in every run a reply sends exactly the packets of the request for its address, last queued first, and ends the request |
| ArpRuns.BroadcastBound | lab1/router/sr_arpcache.c:36-98 | at most five broadcasts of a request, at least a second apart |
| ArpRetry.SweepVisitsOnce | lab1/router/sr_arpcache.c:25-34 | a sweep handles each request present at its start exactly once and touches no other |
| ArpRetry.GoneAfterSixSweeps | lab1/router/sr_arpcache.c:25-98 | without a reply a request is gone after six sweeps at least a second apart, even if frames keep joining it |
| ArpOrder.NewestRequestFirst | lab1/router/sr_arpcache.c:142-152 | in every run later requests stand before earlier ones, and every broadcast asks for the address of its request |
| ArpBindings.LookupIsLive | lab1/router/sr_arpcache.c:104-126 | in every run a lookup hits if and only if a binding for the address is live, and gives the MAC of one |
| ArpBindings.AnswersIffHighest | lab1/router/sr_arpcache.c:104-126 | in every run a given live binding answers if and only if no other live one for the address lies in a higher slot |
| ArpBindings.OlderBindingAnswers | lab1/router/sr_arpcache.c:208 | a run in which an older binding hides a newer live one |
| ArpBindings.SweptEntriesAreYoung | lab1/router/sr_arpcache.c:307-316 | after a sweep no valid entry is older than 15 seconds |
| ArpDelivery.SentAsQueued | lab1/router/sr_router.c:123-143 | a frame sent after a reply is the one queued but for the Ethernet addresses: destination is the MAC of a reply for its next hop, source that of the interface where this reply came in, by which the frame leaves |
| ArpDelivery.SentAfterReplyIsGood | lab1/router/sr_router.c:123-143 | it still passes the next router's header test |
| ArpFrames.BuildRequest | lab1/router/sr_arpcache.c:69-88 | the stores build the request frame of the specification |
| ArpFrames.BuildReply | lab1/router/sr_router.c:148-163 | the stores over a zeroed buffer with a copied header build the reply frame of the specification |
| ArpFrames.HandleArp | lab1/router/sr_router.c:114-170 | a reply is learned from; a request for the address of the arrival interface is answered; anything else is ignored |
| ArpFrames.RequestBytes | lab1/router/sr_arpcache.c:75-88 | a request goes to everyone from the sending interface and asks for the address, field by field |
| ArpFrames.ReplyBytes | lab1/router/sr_router.c:145-165 | a request is answered if and only if it asks for the address of the arrival interface; then the fields of the answer, one by one |
| ArpFrames.RequestIsAnswered | lab1/router/sr_router.c:114-170 | a router with the address answers the request of another, and who gets the answer learns exactly this binding |
| ArpFrames.WaitingFramesLeave | lab1/router/sr_router.c:123-143 | after this exchange each frame that waited for the address leaves from the interface that asked to the MAC of the one that has it |
| HwInfo.DecodePacked | lab1/pox_module/cs144/VNSProtocol.py:149-214 | reading the packed bytes appends the interfaces in order with MAC and IP to any list |
| HwInfo.InterfaceBytes | lab1/pox_module/cs144/VNSProtocol.py:143-161 | the six entries of an interface at their offsets: name, speed, MAC, IP, subnet and mask, each with its number |
| HwInfo.ListBytes | lab1/pox_module/cs144/VNSProtocol.py:208-214 | the i-th interface is packed at 216 * i |
| HwInfo.RoundTripIff | lab1/router/sr_vns_comm.c:187-227 | the list is rebuilt exactly if and only if every name is NUL-free and at most 32 bytes |
| HwInfo.MessageIsFramed | lab1/router/vnscommand.h:131-137 | the message is its own length, the number 16 and the packed interfaces |
| HwInfo.SrInstance.AddInterface | lab1/router/sr_if.c:85-113 | a node with the name is linked in last |
| HwInfo.SrInstance.SetEtherAddr | lab1/router/sr_if.c:123-137 | the last interface gets the address; fails if and only if there is none |
| HwInfo.SrInstance.SetEtherIp | lab1/router/sr_if.c:147-161 | the last interface gets the IP address; fails if and only if there is none |
| HwInfo.SrInstance.HandleHwinfo | lab1/router/sr_vns_comm.c:176-233 | the linked list after a message is the decoded one, and the entry count is returned |

Functions that only define something have no row of their own; the rows above name the methods
and lemmas that state what they mean.

## Left out

cTCP:

- The ACK loop and the timer loop read a list node after freeing it; the model settles the successor first, and a destroyed connection does nothing more.
- CtcpConnection.CtcpState.SendNonDataSegment: the source ors into a flags word that was never set; the model takes the flags asked for.
- CtcpConnection.CtcpState.Receive: a parameter says whether the truncation and checksum tests pass, because the checksum test stops at the first NUL of the data and depends on bytes the protocol state does not have; StringTestIff says which intact segments pass. Segments whose length field is below the header size count as not intact.
- CtcpConnection.CtcpState.CtcpOutput: conn_output is what ctcp_output can see of it, bytes accepted or the output closed; its return value is ignored as in the source. Writes, partial writes and their errors are in OutputQueue, and enter the runs as the events OutputDrains and OutputFails.
- BBR: its window, gate and pacing are arbitrary; the gate may also close where the source's formula would not close it.
- A timer pass covers one connection; the list of connections, their teardown and freeing order are not modelled.
- CtcpLists.SegLists.FirstToSend: stands for the tests of ll_length, whose 32-bit counter would be 0 again for 2^32 members.
- CtcpTransfer.TransferIsSafe: assumes that the data channel neither loses a first copy nor lets one overtake another, fewer than 2^32 - 1 bytes, room for each first copy, data that the checksum test over strlen bytes lets pass, and the time before the FIN arrives; InOrderIffNoGap, CopiesDroppedIffNoWrap, GatedAccepts and StringTestIff show why. Two-way data is not modelled end to end. What callbacks and write errors do to removed data is RemovalIffNoLateCopy; the end of a connection is in CtcpEnd.
- CtcpSender.RetransmissionBound: measures spacing from the recorded time stamp, because the spacing from the real departure fails after a pacing wait (EarlyIsReached).
- CtcpWrap.LongStreamsRepeat: gives one direction for the plain test on the end number; the exact condition for streams of any length is CopiesDroppedIff.
- Sockets, the poll loop, the fork-based unreliability, logging and options.
- Conversion.IntactIsAccepted: is about the full-length test, which the source's test equals for data without NUL; the test as written is in StringTestIff.
- Conversion.ConvertToCtcp: gives null for a total length below 40 or beyond the payload, where the source builds a segment from memory behind the packet.
- Conversion.FlipBit: writes the exclusive or with a one-bit mask as arithmetic on the byte.
- Memory of the connection, of freed chunks, and of the segment that data waiting for room lies in: the model keeps the data.

Router:

- ArpCacheState.ArpCache.HandleArpreq: leaves out the ICMP messages sent when ARP gives up, whose IP header pointer is computed from the list node, and the lookup of the interface for the broadcast; the frame itself is in ArpFrames.BuildRequest.
- ArpFrames.HandleArp: a reply gives the binding to be learned, what the cache and the waiting frames make of it is in ArpCacheState; with an unknown arrival interface a request has no defined outcome, and neither would waiting frames have after a reply.
- Interleavings of the timeout thread between queueing and handling; each handler is one step. Queueing a null packet.
- Ethernet type dispatch: the forwarding model is about frames of type IP, ArpFrames about those of type ARP.
- Router.SendIcmpError: gives null for frames of 34 to 37 bytes, where the source writes past its buffer.
- Router.HandleIp: takes frames of at most 10000 bytes, the largest message the router reads (sr_vns_comm.c:372), so that the int-length checksum is exact.
- Forwarding.Decide: gives the verdict Faulty where the C code has no defined behaviour: ICMP errors on frames of 34 to 37 bytes, an unknown arrival interface, an unknown interface of the chosen route.
- Interface names are compared as strings, in the source up to 32 bytes.
- Sha1Vectors.RotlBit: is about the three amounts that SHA-1 uses.
- HwInfo.SrInstance.HandleHwinfo: takes messages that start with their own length, at least 8; the framing by the ltprotocol package is not part of this model. Printing is left out.
- Lpm.LpmIsLongest: is about tables whose masks are contiguous; the walk itself is modelled for all tables.

Not modelled at all: NAT stubs, lab 0, lab 2, the testers, Mininet topologies and controller code.
