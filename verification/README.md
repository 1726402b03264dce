# Verified model of the link, checksum and pulse code

This project models four parts of the stage-2 software and proves what they promise.

* **The ARQ link** (`units/arq/source/arq.h`, `timer.cpp`). `Arq.dfy` is the protocol object with its fields,
  buffers, timers and loops; `ArqSpec.dfy` is the same state as a value, with one function per operation.
  `Network.dfy` joins two ends by channels that keep order but may drop any packet and hand over the oldest one
  again; `Link.dfy` is two such objects whose methods take exactly those steps. `Unbounded.dfy` is the same link
  with packet numbers that never wrap and no slots. `Refinement.dfy` shows that every run of the modular link is the
  image of a run of the unbounded one; `Delivery.dfy`, `Progress.dfy`, `Stranded.dfy`, `Completion.dfy`,
  `Losses.dfy`, `Acknowledged.dfy` and `Timed.dfy` draw the consequences for the users of a link. Results about runs
  are stated for one direction, from end A to end B; exchanging the ends turns every run into a run
  (`Network.RunFlipped`), so they hold for the other as well. `Alignment.dfy` settles which configurations work.
* **The checksums** (`units/communication/source/RealtimeComm.h`): `Checksum.dfy` holds the one's complement sum of
  RFC 1071, section 2, and the two-fold 32-bit form; `UdpFrame.dfy` the bytes of the IP and UDP headers.
* **The pulse path** (`tm_calibration.cpp`, `tm_l2pulses.cpp`): `TraceCodec.dfy` and `Playback.dfy`, over the
  bitwise operators of `Bits.dfy`.
* **Synapse programming** (`jd_mappingmaster.cpp`): `Synapse.dfy`.

Verify with `dafny verify dfyconfig.toml`.

## Findings

Five properties that one would expect do not hold of the code as it is. The code is modelled unchanged, and each is
replaced by the exact condition under which it holds.

1. *Configuration of the link.* The comment beside `SEQ_S` (arq.h:81) asks for at least `2 * WND_S` sequence numbers.
   That is neither enough nor the point: the slot index `seq % WND_S` needs `WND_S` to divide `SEQ_S`. Over all
   `1 <= WND_S < SEQ_S <= 2^31`, every run delivers faithfully **if and only if** it does
   (`Alignment.FaithfulExactlyWhenAligned`). The other direction builds, for each other configuration, a run in which a
   payload is overwritten in its slot before it is sent.
2. *Liveness of the link.* There is none without new traffic: a dropped duplicate does not start the delayed-ack timer
   (arq.h:323-330), so one lost stand-alone acknowledgement can leave the sender waiting for ever
   (`Stranded.LostAckStrandsSender`). For every state of every run in which no timeout is set below zero,
   `Stranded.InformableExactly` says exactly when the sender can still learn of more, and
   `Completion.CompletableExactly` exactly when everything sent can still be delivered. Losses towards the receiver
   alone never do harm (`Completion.AlwaysCompletable`), but an acknowledgement and a packet lost together can leave data
   undelivered for good: some run does so if and only if the window has more than one slot (`Losses.LosesDataExactly`).
   With more than two slots, and only then, some run leaves a sender that can still learn of more and yet never of
   enough (`Losses.ToldTooLittleExactly`).
3. *UDP checksums.* For an odd length the checksum takes in the byte after the data where RFC 768 pads with zero; it
   verifies exactly when that byte is zero (`UdpFrame.OddDatagramVerifiesExactly`). And a computed checksum of zero is
   stored as it is, which RFC 768 reserves for "no checksum": exactly when the words summed are together a multiple of
   65535 (`UdpFrame.ZeroCheckExactly`), which happens (`UdpFrame.ZeroCheckHappens`).
4. *Large gaps in playback.* The FIFO keeps 14 bits of cycles of each delay. The schedule survives exactly when the first
   ideal cycle is in range and every other kept pulse is wanted soon enough after one kept before it
   (`Playback.PlaysExactly`, with the same on the bare list of pulses when none is dropped); two pulses 2^14 cycles
   apart already fail (`Playback.GapLimit`).
5. *Times in the trace.* The spike trains read back are the ones sent exactly when every step between successive pulses
   is one the unwrapping can tell and no pulse lies before the lap of the first or 2^32 ticks after its start
   (`TraceCodec.RoundTrip`). Pulses half a lap apart come back up to the 2^18-th and no further
   (`TraceCodec.ReachIsTight`); gaps of three quarters of a lap fail at once (`TraceCodec.GapIsTight`).

One more comment is not followed by the code, and the model follows the code: the row packer puts column 0, not the
eighth column, in the low bits of a word (jd_mappingmaster.cpp:1229-1230 against 1406-1407). And the trace decoder takes
its 32-bit pulse counter, rather than the first pulse, as the sign that no time has been seen yet, so each time the counter
comes round to zero a wrap at that pulse goes unnoticed (`TraceCodec.CounterWrapIsMissed`).

## Model

| member | source | states |
|---|---|---|
| Timers.TicksClosedForm | units/arq/source/timer.cpp:72-83 | The timer after any number of ticks in closed form: expired once more ticks have passed than it had left, otherwise counting; a stopped timer never changes |
| Timers.ExpiresExactly | units/arq/source/timer.cpp:27-38 | A started timer with a limit of at least 0 has expired after k ticks exactly when k is at least limit + 1, and is live throughout |
| Timers.NegativeLimitNeverExpires | units/arq/source/timer.cpp:35-36 | A timer with a negative limit runs for ever |
| Timers.StartedExpires | units/arq/source/timer.cpp:27-38 | A timer without a timeout, running or not, shows one k ticks after a start exactly when k is at least limit + 1: never early, never late |
| Timers.StartHoldsTimeout | units/arq/source/timer.cpp:37 | A timeout not handled yet outlives a new start |
| Timers.ContinuedKeepsCount | units/arq/source/timer.cpp:40-43 | Continuing a running timer changes nothing in what it does later; continuing a stopped one is starting it |
| Timers.LimitCuts | units/arq/source/timer.cpp:21-25 | A new limit makes a running timer expire after the smaller of its count and the limit, and the next start counts from it |
| Timers.StoppedNeverExpires | units/arq/source/timer.cpp:45-55 | A stopped timer neither runs nor shows a timeout after any number of ticks |
| Timers.AckedKeepsCount | units/arq/source/timer.cpp:67-70 | Handling a timeout leaves a count that was started since: it expires when it would have |
| Timers.Timer.constructor | units/arq/source/timer.h:38 | A new timer is off, with its limit set |
| Timers.Timer.SetTimeoutVal | units/arq/source/timer.cpp:21-25 | Sets the limit and cuts the count down to it, so a running timer never has more to count than its limit |
| Timers.Timer.Start | units/arq/source/timer.cpp:27-38 | Restarts the count from the limit, running or not, and leaves an unhandled timeout standing |
| Timers.Timer.Continue | units/arq/source/timer.cpp:40-43 | Starts the timer only if it is not running |
| Timers.Timer.Stop | units/arq/source/timer.cpp:45-55 | Off, timeout withdrawn |
| Timers.Timer.Ack | units/arq/source/timer.cpp:67-70 | Withdraws the timeout only |
| Timers.Timer.Tick | units/arq/source/timer.cpp:72-83 | Counts down; at zero stops and raises the timeout |
| Modular.Dist | units/arq/source/arq.h:140 | The cyclic distance, computed through 32-bit unsigned arithmetic, is the true distance for all positions of a ring of up to 2^31 numbers |
| Modular.SlotOfCounter | units/arq/source/arq.h:230 | When the slots divide the ring, the slot of a reduced position is the slot of the position it stands for |
| Modular.SlotsDistinct | units/arq/source/arq.h:230 | Positions less than one window apart never share a slot |
| ArqSpec.DistancesExactly | units/arq/source/arq.h:140 | All distances on a ring come out right exactly when it has at most 2^31 numbers |
| ArqSpec.LoopStopsExactly | units/arq/source/arq.h:346-348 | With every slot valid, the ack loop can stop exactly when there are fewer slots than sequence numbers |
| ArqSpec.UsableExactly | units/arq/source/arq.h:81-82 | The configurations the model admits are exactly those with a slot, right distances and an ack loop that can stop |
| ArqSpec.ClearedKeepsInv | units/arq/source/arq.h:166-178 | Reset establishes the invariant with nothing to send, read or acknowledge |
| ArqSpec.SendKeepsInv | units/arq/source/arq.h:220-238 | Send keeps the invariant and takes the payload exactly when CanSend holds |
| ArqSpec.GetSendDataKeepsInv | units/arq/source/arq.h:250-292 | GetSendData keeps the invariant, in particular that the retransmission timer is live exactly while a packet is outstanding |
| ArqSpec.TransmitExact | units/arq/source/arq.h:242-292 | HasSendData holds exactly when GetSendData returns 1; the branch for a timeout with nothing outstanding is unreachable; a timeout resends the oldest packet already sent; every packet carries the current ack position and silences the delayed-ack timer |
| ArqSpec.TransmitOrder | units/arq/source/arq.h:258-287 | Without a timeout, a packet never sent goes before any stand-alone ack and is the oldest such; an ack goes alone only when everything accepted is sent, nothing is due again and the delayed-ack timer has expired, and changes nothing but that timer |
| ArqSpec.TransmitTimer | units/arq/source/arq.h:258-287 | In any state, transmitting never extends a running retransmission count and starts one exactly when it sends data with none running; a stand-alone ack carries number 0 and slot 0; a timeout with nothing held is only noted |
| ArqSpec.DoneByPositions | units/arq/source/arq.h:152 | SendDone holds exactly when the window start has reached the next position to fill, whatever the timers do |
| ArqSpec.TimeoutsTakeEffect | units/arq/source/arq.h:199-204 | From its next start the retransmission timer expires after exactly the first timeout set and one tick, the delayed-ack timer after the second |
| ArqSpec.AdvanceToGap | units/arq/source/arq.h:346-348 | The ack loop stops at the first gap of the receive window, however far it has to go |
| ArqSpec.ReceiveDataKeepsInv | units/arq/source/arq.h:321-353 | Any packet, well formed or not, leaves the ack position one before the first gap |
| ArqSpec.ReceiveAckKeepsInv | units/arq/source/arq.h:359-384 | Any ack field leaves the send positions in order and the timer live exactly while packets are outstanding |
| ArqSpec.ReceiveKeepsInv | units/arq/source/arq.h:314-392 | Both together, for every packet whatever its fields |
| ArqSpec.ForeignFields | units/arq/source/arq.h:322-365 | A packet with fields outside the ring is handled as the one with their residues: always if they are not negative, and also if they are when SEQ_S divides 2^32 |
| ArqSpec.ReadKeepsInv | units/arq/source/arq.h:415-418 | Read keeps the receive-window invariant and shortens the in-order run by one |
| ArqSpec.TimersKeepInv | units/arq/source/arq.h:163 | Ticks and new timeouts keep the invariant |
| ArqSpec.ReadableExact | units/arq/source/arq.h:303-310 | HasReadData holds exactly when the in-order run is not empty; CanReceive exactly when it is shorter than the window |
| ArqObject.ARQ.constructor | units/arq/source/arq.h:120-134 | A usable configuration gives a valid object in the reset state with the timeouts asked for |
| ArqObject.ARQ.Reset | units/arq/source/arq.h:166-178 | The whole state after Reset; buffers and limits stay |
| ArqObject.ARQ.SetTimeouts | units/arq/source/arq.h:199-204 | Sets both limits and nothing else |
| ArqObject.ARQ.CanSend | units/arq/source/arq.h:212-216 | Whether fewer than a window of payloads are held |
| ArqObject.ARQ.Send | units/arq/source/arq.h:219-238 | Stores the payload in its slot and returns 1, or changes nothing and returns 0 when the window is full |
| ArqObject.ARQ.SendDone | units/arq/source/arq.h:152 | Whether nothing is held |
| ArqObject.ARQ.HasSendData | units/arq/source/arq.h:241-245 | True exactly when the next GetSendData yields a packet |
| ArqObject.ARQ.GetSendData | units/arq/source/arq.h:249-292 | Packet and new state for each of the four branches; the return value is what HasSendData announced |
| ArqObject.ARQ.CanReceive | units/arq/source/arq.h:303-310 | Whether any slot is free; if not, there is something to read |
| ArqObject.ARQ.AdvanceAck | units/arq/source/arq.h:346-348 | The loop terminates and ends where its specification says |
| ArqObject.ARQ.ReceiveData | units/arq/source/arq.h:321-353 | Drops or stores the packet, advances the ack position and starts the delayed-ack timer only when it stores |
| ArqObject.ARQ.ReceiveAck | units/arq/source/arq.h:355-385 | Moves the window past a position outstanding and stops or restarts the timer, or does nothing |
| ArqObject.ARQ.Receive | units/arq/source/arq.h:313-392 | Whole new state for any packet, including fields outside the sequence range |
| ArqObject.ARQ.HasReadData | units/arq/source/arq.h:395-399 | Whether the in-order run is not empty |
| ArqObject.ARQ.Read | units/arq/source/arq.h:402-422 | Returns the payload at the window start, frees its slot and moves the window |
| ArqObject.ARQ.Tick | units/arq/source/arq.h:163 | Ticks both timers |
| LinkObject.Link.constructor | units/arq/source/arq.h:120-134 | Two new objects and empty channels are an initial state of the link |
| LinkObject.Link.Do | units/arq/source/arq.h:149-163 | Any call on the two objects, and any loss or repeated delivery, is one step of the modelled link |
| Network.EndpointsKeepInv | units/arq/source/arq.h:166-422 | In every run, under any usable configuration, both endpoints keep their invariant |
| UnboundedLink.InFlightRange | units/arq/source/arq.h:322-336 | A data packet in flight is at most one window behind and less than two windows ahead of what its receiver has read |
| UnboundedLink.URunKeepsInv | units/arq/source/arq.h:213-422 | In every run: acknowledged packets have been accepted, accepted ones sent, stored ones are genuine, acks in flight never go back, and no packet in flight has been overtaken by a window |
| UnboundedLink.URunConcat | units/arq/source/arq.h:149-163 | A run continued is one run |
| Refinement.WindowDecision | units/arq/source/arq.h:322-323 | The window test modulo SEQ_S is the test on absolute numbers for all packets within three windows |
| Refinement.AckDecision | units/arq/source/arq.h:359-365 | The distance of an ack tells a repeat from news and how many packets the news covers |
| Refinement.SendRefines | units/arq/source/arq.h:223-231 | Send on slots is appending to the list of everything sent |
| Refinement.TransmitRefines | units/arq/source/arq.h:258-287 | The packet made from slots and reduced positions is the encoding of the absolute one |
| Refinement.AckRefines | units/arq/source/arq.h:359-384 | The ack part does on reduced positions what counting does |
| Refinement.AdvanceRefines | units/arq/source/arq.h:346-348 | The ack loop over slots stops where the loop over packet numbers does |
| Refinement.DataRefines | units/arq/source/arq.h:321-353 | Out of window, already received or accepted: the decision equals the decision on absolute numbers |
| Refinement.ReadRefines | units/arq/source/arq.h:398-418 | Reading a slot is taking the next packet number |
| Refinement.ActRefines | units/arq/source/arq.h:149-163 | Every operation of either end, with packets lost or repeated, commutes with the encoding |
| Refinement.RunRefines | units/arq/source/arq.h:166-422 | Every run of the link modulo SEQ_S is the image of the same run with unbounded numbers |
| Delivery.DeliversFaithfully | units/arq/source/arq.h:219-422 | In every run, what each Read has returned is a prefix of what the other Send accepted: nothing lost, repeated, reordered or altered |
| Delivery.NothingLost | units/arq/source/arq.h:219-422 | Conservation: accepted payloads are those read, then those buffered in order, then the rest of the send buffer |
| Delivery.DoneMeansDelivered | units/arq/source/arq.h:152 | When SendDone holds, everything accepted is read or can be read in order |
| Acknowledged.AckedIsWindow | units/arq/source/arq.h:359-376 | In every run, the moves of A's window add up to the absolute window start of the unbounded link |
| Acknowledged.DoneExactly | units/arq/source/arq.h:152 | In every state of every run, SendDone holds if and only if as many packets have been acknowledged to A as its Send has accepted payloads; and no more are acknowledged than B has accepted in order |
| Delivery.InFlightGenuine | units/arq/source/arq.h:258-275 | Every data packet in flight, first transmission or not, carries the payload accepted under its number |
| Delivery.SendSlotsStable | units/arq/source/arq.h:223-231 | Every unacknowledged slot still holds the payload first stored there, across any number of wrap-arounds |
| Delivery.AckOutcomeOfCounts | units/arq/source/arq.h:359-384 | After an ack the window starts at exactly the count its sender had accepted when it sent it |
| Delivery.AcksExact | units/arq/source/arq.h:359-384 | In every run, the packet to be delivered next was transmitted at some step; its ack is news or names the position before the window and changes nothing, and afterwards A's window starts just after the ack position B had at that step |
| Network.SentWhen | units/arq/source/arq.h:267-280 | Every packet in flight was transmitted at some step of the run |
| Network.RunFlipped | units/arq/source/arq.h:149-163 | A run with the ends exchanged is the run of the exchanged system |
| Alignment.SharedSlot | units/arq/source/arq.h:230 | If WND_S does not divide SEQ_S, a position before the wrap shares slot 0 with position 0 within one window |
| Alignment.Rounds | units/arq/source/arq.h:166-422 | With two slots or more, from any initial state, any number of packets short of the ring can be sent, acknowledged and read one by one |
| Alignment.Overwritten | units/arq/source/arq.h:230-231 | Every such configuration has, for any two different payloads, a run in which the first is sent and the second read in its place |
| Alignment.FaithfulExactlyWhenAligned | units/arq/source/arq.h:81-82 | All runs are faithful if and only if WND_S divides SEQ_S |
| Progress.AcksAlwaysComing | units/arq/source/arq.h:277-287 | If no packet towards A is lost: A knows all B has accepted, or a packet carrying B's ack position is in flight, or B's delayed-ack timer is running or expired, in every state of every run |
| Stranded.MuteForever | units/arq/source/arq.h:323-330 | Once B has nothing left that could tell A, no continuation without new traffic tells it |
| Stranded.MuteOfRel | units/arq/source/arq.h:321-365 | The condition read off the fields and the packets in flight is the condition on absolute numbers |
| Stranded.UInformableExactly | units/arq/source/arq.h:258-287 | With unbounded numbers and timers that can expire, the link by itself can inform A of more if and only if B is not mute |
| Stranded.IntoStep | units/arq/source/arq.h:258-287 | Unless B is cut off, and with timers that can expire, A can be brought to know exactly what B has accepted |
| Completion.CutForever | units/arq/source/arq.h:258-268 | Once B can never say how much it has accepted, it never accepts more without a Send |
| Completion.DeliverRest | units/arq/source/arq.h:249-422 | Unless B is cut off, and with timers that can expire, the link by itself can deliver everything still held and have it read |
| Completion.CompletableExactly | units/arq/source/arq.h:258-376 | In every state of every run without negative timeouts: B's user can still get all that A's Send accepted if and only if B has accepted it all or is not cut off |
| Completion.AlwaysCompletable | units/arq/source/arq.h:249-422 | The delivery guarantee: if no packet towards A is lost and no timeout is negative, then in every state of every run B's user can still get all that A's Send accepted, however many data packets were lost |
| Losses.DataLost | units/arq/source/arq.h:258-268 | With two slots or more, from every initial state a run that loses one acknowledgement and the packet after it leaves that packet undelivered in every continuation without a Send |
| Losses.LosesDataExactly | units/arq/source/arq.h:258-268 | Some run without negative timeouts loses data for good if and only if there is more than one slot |
| Losses.ToldTooLittle | units/arq/source/arq.h:267-268 | With three slots or more, from every initial state a run after which A can still learn of more, but no continuation without a Send delivers everything |
| Losses.ToldTooLittleExactly | units/arq/source/arq.h:267-268 | Some run without negative timeouts ends so if and only if there are more than two slots |
| Stranded.InformableExactly | units/arq/source/arq.h:321-376 | In every state of every run without negative timeouts in which B has accepted more than A knows: transmissions, deliveries, losses, reads and ticks alone can move A's window if and only if B is not mute; if it is, nothing but a Send can |
| Stranded.LostAckStrandsSender | units/arq/source/arq.h:323-330 | From every initial state a lost stand-alone ack leads to a state in which A is never done again without new traffic |
| Timed.AckDueInTime | units/arq/source/arq.h:351 | After a packet is accepted, HasSendData holds once the timeout plus one tick have passed, in every continuation without a transmission |
| Timed.RetransmitDueInTime | units/arq/source/arq.h:378-383 | While a packet is outstanding, HasSendData holds once the timeout plus one tick have passed without a transmission or a window move |
| Timed.SendTimerExactly | units/arq/source/timer.cpp:72-83 | While the window stays and no timeouts are set, a retransmission timer with n ticks to go shows no timeout within n ticks, whatever is sent and received, and one exactly from tick n + 1 on if nothing is sent |
| Timed.RetransmitExactly | units/arq/source/arq.h:376-383 | After an ack that moves the window and leaves packets outstanding, there is no timeout until exactly the configured timeout and one tick have passed, in every such continuation |
| Timed.FirstTransmitExactly | units/arq/source/arq.h:270-275 | The same after the first packet put in flight by an end with none outstanding |
| Timed.AckExactly | units/arq/source/arq.h:351 | After a packet is accepted, the delayed ack is due exactly when what was left of a running count, or the configured timeout, and one tick have passed |
| Checksum.OnesSumIsCanon | units/communication/source/RealtimeComm.h:651-661 | End-around carry at every addition equals one reduction of the integer sum |
| Checksum.U32Accumulates | units/communication/source/RealtimeComm.h:651-655 | The accumulator holds the sum modulo 2^32 however the additions are grouped |
| Checksum.WrapSum | units/communication/source/RealtimeComm.h:657-661 | For every 32-bit input, two folds and a complement give the complement of the fully folded sum |
| Checksum.FoldTwice | units/communication/source/RealtimeComm.h:658-659 | After two folds nothing is left to fold, for every 32-bit value |
| Checksum.WordLimit | units/communication/source/RealtimeComm.h:651-655 | Up to 65537 words never overflow the accumulator |
| Checksum.WordLimitIsTight | units/communication/source/RealtimeComm.h:651-655 | One word more can overflow it |
| Checksum.ExactlyWithoutWrap | units/communication/source/RealtimeComm.h:651-661 | For arrays of any length, the result is right if and only if the accumulator did not wrap or wrapped a multiple of 65535 times leaving more than zero |
| Checksum.FilledVerifies | units/communication/source/RealtimeComm.h:663-667 | Filling a zeroed word with the checksum makes the whole array verify; within the word limit the checksum of the filled array is zero |
| Checksum.ByteOrderIndependent | units/communication/source/RealtimeComm.h:651-655 | The sum of byte-swapped words is the byte-swapped sum |
| Checksum.VerifiesEitherWay | units/communication/source/RealtimeComm.h:689-705 | An array verifies in one byte order exactly when it does in the other |
| UdpFrame.RealtimeComm.SumWords | units/communication/source/RealtimeComm.h:651-655 | The loop adds the words of the memory it walks over to the accumulator modulo 2^32 |
| UdpFrame.RealtimeComm.CrcCalc | units/communication/source/RealtimeComm.h:665-667 | The folded complement of the 32-bit sum of any number of words; for up to 65537 words, the complement of their one's complement sum |
| UdpFrame.RealtimeComm.CreateIpHeader | units/communication/source/RealtimeComm.h:677-689 | The 20 bytes written, checksum included; memory beyond them is untouched |
| UdpFrame.RealtimeComm.PseudoSum | units/communication/source/RealtimeComm.h:696-701 | The pseudo header accumulated in four pieces out of memory |
| UdpFrame.RealtimeComm.UdpChecksum | units/communication/source/RealtimeComm.h:696-705 | The checksum of pseudo header and datagram in memory |
| UdpFrame.RealtimeComm.CreateUdpHeader | units/communication/source/RealtimeComm.h:691-705 | The 8 bytes written, checksum included; everything else is untouched |
| UdpFrame.RealtimeComm.CreateUdpFrame | units/communication/source/RealtimeComm.h:670-706 | The whole memory afterwards, for any length: every header field stands where a receiver parses it, the length fields hold the lengths cut to 16 bits, and the data is untouched; unless that cuts into the header, the IP checksum verifies, and the UDP checksum does if and only if the length is even or the byte after the data is zero |
| UdpFrame.HostOrderSuffices | units/communication/source/RealtimeComm.h:689 | Summing in host order and storing the result unconverted makes the bytes verify in network order, on either kind of host |
| UdpFrame.IpHeaderVerifies | units/communication/source/RealtimeComm.h:677-689 | The IP header passes the check of RFC 791, section 3.1 |
| UdpFrame.PiecesAreOneSum | units/communication/source/RealtimeComm.h:696-705 | The sum in pieces is one sum over pseudo header and datagram, and never wraps |
| UdpFrame.EvenDatagramVerifies | units/communication/source/RealtimeComm.h:691-705 | For every even length, pseudo header and datagram sum to all ones |
| UdpFrame.ZeroCheckExactly | units/communication/source/RealtimeComm.h:704-705 | The checksum stored is zero, which RFC 768 reserves, if and only if the words summed are together a multiple of 65535 |
| UdpFrame.ZeroCheckHappens | units/communication/source/RealtimeComm.h:705 | Between any two ends some datagram gets a checksum of zero |
| UdpFrame.OddDatagramVerifiesExactly | units/communication/source/RealtimeComm.h:704 | For every odd length it verifies if and only if the byte after the data is zero |
| UdpFrame.FrameVerifies | units/communication/source/RealtimeComm.h:670-706 | Both checksums of the whole frame |
| UdpFrame.FrameParses | units/communication/source/RealtimeComm.h:677-693 | Parsed in network order, the frame has version 4, five header words, no service, the total length, identification 0, "don't fragment", 64 hops, protocol 17, both addresses, both ports and the UDP length at the offsets of RFC 791 and RFC 768 |
| UdpFrame.ByteOrders | units/communication/source/RealtimeComm.h:680 | What the two kinds of host make of two bytes, and of htons |
| UdpFrame.IpHeaderIndependentOfHost | units/communication/source/RealtimeComm.h:689 | The bytes of the IP header are the same on either kind of host |
| UdpFrame.UdpHeaderIndependentOfHost | units/communication/source/RealtimeComm.h:698-705 | So are those of the UDP header |
| TraceCodec.GenSpl1Fields | units/hicann_test/source/tm_calibration.cpp:408-410 | The or-ed fields of an event are a sum of separate digits and fit 27 bits |
| TraceCodec.GenFpgaFields | units/hicann_test/source/tm_calibration.cpp:413-415 | So are the marker and the two events of an entry, for events of up to 32 and 31 bits |
| TraceCodec.EntryUnpacks | units/hicann_test/source/tm_calibration.cpp:289-330 | Reading back one entry sees exactly the one or two pulses packed into it, in order |
| TraceCodec.StreamUnpacks | units/hicann_test/source/tm_calibration.cpp:287-331 | The same for any list of entries |
| TraceCodec.StepExact | units/hicann_test/source/tm_calibration.cpp:297-300 | Laps counted modulo 2^17 stay right exactly for steps within the tolerance to a lap within reach, across the wrap of the clock itself |
| TraceCodec.TimesExactly | units/hicann_test/source/tm_calibration.cpp:297-301 | Every pulse is stored, in 32 bits, at its own time counted from the lap of the first, if and only if all times are within reach and every step is within the tolerance |
| TraceCodec.KeysSurvive | units/hicann_test/source/tm_calibration.cpp:293-328 | Whatever their times, all pulses come back in order with channel and neuron number |
| TraceCodec.RoundTrip | units/hicann_test/source/tm_calibration.cpp:277-334 | For any pulses packed in any arrangement: the 32-bit trains read back hold exactly the neurons sent, each with its own times in order, if and only if all times are within reach and every step is within the tolerance |
| TraceCodec.OrderedTimesSurvive | units/hicann_test/source/tm_calibration.cpp:297-300 | Any number of nondecreasing times with gaps below 0x6000 come back, neuron by neuron, if and only if the last lies less than 2^32 ticks after the start of the first lap and no wrap falls on a pulse whose index is a multiple of 2^32 |
| TraceCodec.ReachIsTight | units/hicann_test/source/tm_calibration.cpp:300 | Of pulses 0x4000 ticks apart, lists of up to 2^18 come back and no longer ones |
| TraceCodec.GapIsTight | units/hicann_test/source/tm_calibration.cpp:297 | Three equally spaced pulses come back if and only if they are less than 0x6000 ticks apart |
| TraceCodec.DisorderIsTight | units/hicann_test/source/tm_calibration.cpp:297 | Two pulses out of order come back if and only if they are at most 0x2000 ticks out of order |
| TraceCodec.CounterWrapIsMissed | units/hicann_test/source/tm_calibration.cpp:297-301 | After any number of pulses in one lap, a pulse in the next comes back if and only if that number is not a multiple of 2^32 |
| TraceCodec.TrainsByKey | units/hicann_test/source/tm_calibration.cpp:309-328 | Every neuron that fired has its own train, holding exactly its own stored times in order |
| TraceCodec.SiftExact | units/hicann_test/source/tm_calibration.cpp:309-328 | Sorting times by neuron loses nothing: all trains agree exactly when all times do |
| TraceCodec.TraceReader.ReadTracePulses | units/hicann_test/source/tm_calibration.cpp:277-334 | The loop empties the FIFO and leaves the trains of the decoded events, with 32-bit counters; whatever pulses were packed into it come back exactly under the condition of the round trip |
| TraceCodec.TraceReader.StoreEntry | units/hicann_test/source/tm_calibration.cpp:289-330 | One turn of the loop: a second pulse is taken exactly when bit 63 is set |
| TraceCodec.TraceReader.StorePulse | units/hicann_test/source/tm_calibration.cpp:293-311 | One pulse: fields cut out, wrap counted, time appended to its neuron's train |
| Playback.ScheduleSelects | units/hicann_test/source/tm_l2pulses.cpp:417-444 | The kept pulses are a selection of the list in order, the first always among them |
| Playback.ScheduleFeasible | units/hicann_test/source/tm_l2pulses.cpp:423-425 | Kept pulses are released at least two cycles apart and never before their ideal cycle |
| Playback.ScheduleEarliest | units/hicann_test/source/tm_l2pulses.cpp:423-425 | No schedule of the kept pulses that respects both releases any of them earlier |
| Playback.ScheduleClosedForm | units/hicann_test/source/tm_l2pulses.cpp:417-444 | A kept pulse is released in the latest cycle demanded by any kept pulse up to it, two cycles for each in between |
| Playback.DroppedExactly | units/hicann_test/source/tm_l2pulses.cpp:423-430 | A pulse is dropped if and only if no schedule of the pulses kept before it lets it out by its ideal cycle or by the deadline |
| Playback.PlayedExactly | units/hicann_test/source/tm_l2pulses.cpp:441 | Adding up the delays in the FIFO gives back the scheduled cycles if and only if every difference is below 2^14 and not negative |
| Playback.FitsExactly | units/hicann_test/source/tm_l2pulses.cpp:420-441 | All differences fit if and only if the ideal cycles of the kept pulses leave no gap: the first is in range, and each other comes less than 2^14 cycles after the demand of one kept before it |
| Playback.NothingDroppedExactly | units/hicann_test/source/tm_l2pulses.cpp:423-430 | No pulse is dropped if and only if for each the ones before leave it its ideal cycle, or time until the deadline |
| Playback.PlaysExactly | units/hicann_test/source/tm_l2pulses.cpp:406-447 | The FIFO plays the schedule if and only if the ideal cycles of the kept pulses leave no gap; if every pulse is in time, if and only if those of the list do |
| Playback.GapLimit | units/hicann_test/source/tm_l2pulses.cpp:441 | Of two pulses, the first wanted in cycle 0, what is kept is played as scheduled if and only if the second is wanted before cycle 2^14 |
| Playback.GapsOnlyTooLarge | units/hicann_test/source/tm_l2pulses.cpp:423-441 | Every difference but the first is at least two cycles |
| Playback.DelayKept | units/jtag_lib/source/jtag_cmdbase.h:1627-1638 | Of a doubled delay passed as 16 bits and cut to 15, 14 bits of cycles are left |
| Playback.PulseDataIs | units/hicann_test/source/tm_l2pulses.cpp:433-435 | What the FIFO keeps of a pulse's data is chip, neuron and arrival time |
| Playback.WordReadsBack | units/hicann_test/source/tm_l2pulses.cpp:435 | The trace read-out finds in that word the neuron and the time put into it |
| Playback.WordIsEvent | units/hicann_test/source/tm_l2pulses.cpp:433-435 | That word is the trace event of the neuron, chip included |
| Playback.PlaybackSender.SendPulse | units/hicann_test/source/tm_l2pulses.cpp:417-444 | One turn of the loop extends what was sent by the schedule of one more pulse, or drops it |
| Playback.PlaybackSender.SendPlaybackPulses | units/hicann_test/source/tm_l2pulses.cpp:406-447 | The loop appends one entry per kept pulse with its delay and its own neuron; entries and discarded pulses add up to the list; and the entries play as asked exactly under the conditions above |
| Synapse.OrAppends | units/hicann_test/source/jd_mappingmaster.cpp:1406-1408 | Or-ing a shifted nibble into the accumulator appends it as its next digit |
| Synapse.PackedUnique | units/hicann_test/source/jd_mappingmaster.cpp:1396-1414 | Only one sequence of 32-bit words unpacks to given nibbles |
| Synapse.PackedWords | units/hicann_test/source/jd_mappingmaster.cpp:1396-1414 | Every packed word is the sum of its eight columns' low nibbles, the first in bits 0 to 3 and the last in bits 28 to 31 |
| Synapse.MappingMaster.CompressSynapseRowValues | units/hicann_test/source/jd_mappingmaster.cpp:1396-1414 | For every row length n, unpacking the result gives the low nibbles of the first 8 * (n / 8) columns |
| Synapse.RowFollowsDriver | units/hicann_test/source/jd_mappingmaster.cpp:1237-1239 | The test on a row holds exactly when the driver at address 2 * (row / 2) is enabled |
| Synapse.RowOfDrivers | units/hicann_test/source/jd_mappingmaster.cpp:1237-1239 | Rows 4k and 4k + 1 follow left driver k, the next two right driver k |
| Synapse.DriverAndRows | units/hicann_test/source/jd_mappingmaster.cpp:1348-1366 | Left driver k has address 4k and right driver k address 4k + 2, and these are the addresses of the rows they feed |
| Synapse.TwoRowsPerDriver | units/hicann_test/source/jd_mappingmaster.cpp:1235-1254 | Every enabled driver accounts for exactly two of the rows written |
| Synapse.MappingMaster.WriteWeights | units/hicann_test/source/jd_mappingmaster.cpp:1234-1252 | Rows under an enabled driver hold their configured nibbles, all other rows are as before, and the count is right |
| Synapse.MappingMaster.WriteDecoderPair | units/hicann_test/source/jd_mappingmaster.cpp:1290-1312 | One turn of the decoder loop writes a pair of rows or none |
| Synapse.MappingMaster.WriteDecoders | units/hicann_test/source/jd_mappingmaster.cpp:1288-1315 | The same for decoder rows, written in pairs |
| Synapse.MappingMaster.ProgramDrivers | units/hicann_test/source/jd_mappingmaster.cpp:1348-1366 | Exactly the enabled drivers are configured, left ones at 4n and right ones at 4n + 2 |
| Synapse.MappingMaster.ProgramSynapseControl | units/hicann_test/source/jd_mappingmaster.cpp:1215-1394 | What programming does to both blocks, in the order of the source; a whole block of 56 drivers a side and 224 rows of 256 columns ends up complete |
| Synapse.SynapseControl.WriteWeight | units/stage2_hal/source/synapse_control.cpp:413-417 | A row of 32 words is stored; any other length or row number is ignored |
| Synapse.SynapseControl.WriteDecoder | units/stage2_hal/source/synapse_control.cpp:347-373 | Two neighbouring rows are stored; other lengths or row numbers are ignored |
| Synapse.RowAndDriverTogether | units/hicann_test/source/jd_mappingmaster.cpp:1236-1366 | Corollary, row by row: after programming, a row holds its weights exactly where its driver holds its configured settings; elsewhere row and driver are as before |
| Synapse.FullComplete | units/hicann_test/source/jd_mappingmaster.cpp:1235-1315 | After programming a whole block, each of its 224 rows whose driver is enabled holds all 256 low nibbles of its weights and of its decoder addresses, 32 words with column 0 lowest |
| Synapse.FullAccepted | units/hicann_test/source/jd_mappingmaster.cpp:1239-1248 | A whole block meets everything the code asks of a configuration |
| Synapse.ProgrammedUnique | units/hicann_test/source/jd_mappingmaster.cpp:1215-1394 | The promise about programming leaves only one possible final state |

## Left out

- Debug output, statistics counters, `PacketLayer` binding, the thread and sleeper wrappers and the packet's tag.
- ArqObject.ARQ.Read: the source waits in a loop until there is data; the model requires HasReadData on entry.
- ArqObject.ARQ.constructor: requires 1 <= WND_S < SEQ_S <= 2^31, because otherwise the ack loop need not stop (every slot valid, every distance inside the window) or positions do not fit the `int` fields. At SEQ_S = 2^31 the `int` sum `seqpos+1` (arq.h:231) reaches 2^31 once per turn; the model takes it as the number the unsigned remainder then sees.
- Stranded.InformableExactly: does not cover runs in which a timeout is set below zero, after which a timer can run without ever expiring.
- Completion.CompletableExactly: does not cover such runs either.
- Stranded.UInformableExactly: requires the same in the form of timers that can expire.
- Stranded.IntoStep: requires timers that can expire.
- Completion.DeliverRest: requires timers that can expire.
- Timed.AckDueInTime: does not cover continuations that set a timeout below zero, for the same reason.
- Timed.RetransmitDueInTime: does not cover such continuations either.
- Timers.NegativeLimitNeverExpires: counts on unbounded integers; the source's `int` would overflow after 2^31 ticks of such a timer.
- Network.EndpointsKeepInv: Reset of one end during a run is not a step of the link, since the two ends then disagree by design.
- Channels that reorder packets, which the protocol does not handle, and two ends with different configurations.
- Unconditional liveness of the link, which is false; see the findings above.
- UdpFrame.RealtimeComm.CreateUdpFrame: says of a frame whose length, cut to 16 bits, is less than the UDP header only what is in memory, not what a receiver makes of it.
- UdpFrame.EvenDatagramVerifies: does not include the rule of RFC 768 that a computed checksum of zero is sent as all ones, which the code does not implement; see the findings above.
- `check_packet`, sockets, memory-mapped rings, kernel frame status, clock synchronisation and timing statistics: I/O, or simple field tests.
- Pulse times in floating point: times are integer cycles and ticks, and the ideal release cycle of each pulse is given. In playback, the conversion from a time to a cycle is the caller's, and cycle numbers do not overflow.
- TraceCodec.TraceReader.ReadTracePulses: keeps the 32-bit tick count of a pulse where the source adds a start time and multiplies by the clock period.
- The chip number passed to the playback FIFO, which the FIFO ignores for pulses (units/jtag_lib/source/jtag_cmdbase.h:1637-1641).
- Synapse.MappingMaster.ProgramDrivers: models the driver settings proper; conductance divisors and pre-out settings (jd_mappingmaster.cpp:1444-1486) are further calls of the same kind and would add only easy members.
- Synapse.MappingMaster.ProgramSynapseControl: requires that every row has a driver in the configuration and that rows to be written have 32 words, as the source asserts or indexes without checking.
- Synapse.MappingMaster.WriteWeights: requires the same of the rows of weights.
- Synapse.MappingMaster.WriteDecoderPair: requires the same of the rows of decoder addresses.
- Synapse.MappingMaster.WriteDecoders: requires the same of the rows of decoder addresses.
- Synapse.SynapseControl.WriteDecoder: describes chip revisions from 2 on, where the two rows of a driver are neighbours; revision 1 puts them two apart. The same holds of the settings written by Synapse.SynapseControl.DrvConfig.
- TraceCodec.GenFpgaFields: wider events, which the source's own callers never pass, would overlap.
- The bit orders the controller applies on its way to the chip (units/stage2_hal/source/synapse_control.cpp:355-369, 425-440): row memory is described as its own read functions present it.
- JTAG, FPGA, DNC and other HICANN control calls, floating-gate programming, the disabled playback and trace branches of jd_mappingmaster.cpp and the other interactive test modes.
