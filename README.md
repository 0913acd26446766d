# A verified model of a tiny user-space TCP endpoint

This project models `src/tcp.rs` of a small user-space TCP stack. The stack reads raw IPv4 frames from a tun device. For each new flow it runs the server side of a three-way handshake, and right after the handshake it starts an active close. The model covers the whole per-connection engine:

- **`is_between_wrapped`**: the circular comparison of 32-bit sequence numbers. Every acceptability and ACK test goes through it.
- **`accept`**: builds a connection in SynRcvd from the peer's SYN. It chooses ISS 0, learns IRS and the window, points the header templates back at the peer and sends SYN+ACK.
- **`write`**: stamps the TCP header template with SND.NXT and RCV.NXT and fits the payload into a 1500-byte buffer. It then sends the frame and moves SND.NXT past the payload and past any SYN or FIN, clearing those flags.
- **`send_reset`**: sets RST on the template and writes an empty segment.
- **`on_packet`**: the state machine. It computes SEG.LEN and runs the receive-window acceptability test of section 3.3 of RFC 793, then advances RCV.NXT. After that it applies an ordered chain of guards: SynRcvd → Estab, the ACK check of Estab/FinWait1/FinWait2 with the FIN sent from Estab, FinWait1 → FinWait2, and FinWait2 → TimeWait on an inbound FIN.

Layout:

- `seq_space.dfy` (module `SeqSpace`): `u32` wrap-around arithmetic and `IsBetweenWrapped`. Its contract is the modular formula `0 < (x - start) mod 2^32 < (end - start) mod 2^32`. The module also holds lemmas that turn the three ways the engine calls it into RFC 793's window inequalities.
- `tcp_spec.dfy` (module `TcpSpec`): the connection as a value (`Conn`) and each operation as a pure function. These are `AcceptSpec`, `WriteSpec`, `ResetSpec` and `OnPacketSpec`, which is built from `Admit`, `AckPhase`, `AckAccepted` and `ClosePhase`, one per block of the Rust function.
- `connection.dfy` (module `TcpConnection`): the imperative form of the same code. It has a `Connection` class whose fields are the state, the two sequence spaces and the header templates, plus a `Nic` class that records every frame handed to `send`. Each method changes the fields step by step, in the order the source does. Each method is proved to leave the object and the device exactly as the matching function says. `on_packet` is split into `OnPacket`, `CheckAcceptability`, `OnAck`, `OnAckAccepted` and `OnClose` at the same block boundaries.
- `tcp_properties.dfy` (module `TcpProperties`): what the engine guarantees. It defines an invariant containing every reachable connection (`Reachable`) and proves that `accept` produces one and every non-panicking segment keeps one. It also proves the behaviour of each guard, and lemmas over whole runs of segments (`Run`).
- `tcp_corrected.dfy` (module `TcpCorrected`): the correction for the finding below, with its proofs.

## Behaviour of the code the model keeps

- `is_between_wrapped(0xFFFFFFFE, 1, 0xFFFFFFFF)` is `false`: the strict circular interval from 0xFFFFFFFE to 0xFFFFFFFF is empty. `IsBetweenWrappedExamples` proves the value.
- `accept` does not check the SYN flag and never returns `None`. Its only failure is the panic on overflow, which `AcceptSpec` returns as `Panicked(SequenceOverflow)`.
- `recv.wnd` is taken from the peer's window (src/tcp.rs:122). The constant 1024 goes into `send.wnd` and into the outgoing header's window field.
- `send_reset` zeroes the template's sequence and acknowledgment numbers, but `write` overwrites both straight away. The frame sent carries SND.NXT and RCV.NXT, and RST stays set on the template for every later frame (`ResetSpec`).
- `State::is_syncronised` reports only Estab as synchronised.
- TimeWait is reached only from FinWait1, when the peer's FIN arrives together with the ACK of our FIN (`TimeWaitOnlyOnFin`, `FinWait1FinAckReachesTimeWait`). A FIN that arrives on its own after our FIN has been acknowledged never leads to TimeWait. See the finding below.
- An acceptable ACK that carries data panics on `assert!(data.is_empty())` (src/tcp.rs:307) in Estab, FinWait1 and FinWait2, and also on the ACK that completes the handshake: the SynRcvd guard moves the connection to Estab first, so the panic leaves it in Estab (`DataAfterAckPanics`).

Rust's three non-wrapping additions are modelled with debug-build semantics. An overflow is an explicit `Panic` outcome, and `assert!(data.is_empty())` is one as well. These additions are `tcph.sequence_number() + 1` (src/tcp.rs:121), `slen += 1` (src/tcp.rs:232, 235) and `self.send.iss + 2` (src/tcp.rs:324). The state returned with a panic is the state at the point of the panic. `data.len() as u32` is modelled as a truncation modulo 2^32.

## Model

| member | source | states |
|---|---|---|
| `SeqSpace.IsBetweenWrapped` | src/tcp.rs:352-375 | the three-way comparison means exactly `0 < (x - start) mod 2^32 < (end - start) mod 2^32` |
| `SeqSpace.IsBetweenWrappedExamples` | src/tcp.rs:352-375 | `(0xFFFFFFFE, 1, 0xFFFFFFFF)` and `(10, 20, 15)` give false, `(0xFFFFFFFE, 1, 2)` gives true, and `start == x` always gives false |
| `SeqSpace.ReceiveWindowTest` | src/tcp.rs:237-265 | the test from `nxt - 1` to `nxt + wnd` is RCV.NXT =< SEG.SEQ < RCV.NXT + RCV.WND (the distance from RCV.NXT is below RCV.WND) |
| `SeqSpace.AckWindowTest` | src/tcp.rs:302 | the test from `una` to `nxt + 1` is SND.UNA < SEG.ACK =< SND.NXT |
| `SeqSpace.InclusiveAckWindowTest` | src/tcp.rs:286-290 | the test from `una - 1` to `nxt + 1` is SND.UNA =< SEG.ACK =< SND.NXT |
| `TcpSpec.IsSynchronised` | src/tcp.rs:12-23 | only Estab is reported as synchronised |
| `TcpSpec.WriteSpec` | src/tcp.rs:151-204 | the frame carries seq SND.NXT and ack RCV.NXT, the template's flags, and the first min(len, 1460) payload bytes; the IP length fits 1500 bytes; new SND.NXT = SEG.SEQ + SEG.LEN (payload + SYN + FIN) mod 2^32; SYN/FIN cleared; state, SND.UNA, ISS, RCV.* and ACK/RST unchanged |
| `TcpSpec.ResetSpec` | src/tcp.rs:206-215 | the reset frame carries RST with SND.NXT and RCV.NXT, not zeros; RST stays set; state and RCV.* unchanged |
| `TcpSpec.AcceptSpec` | src/tcp.rs:99-149 | panics exactly when the SYN's seq is 2^32-1; otherwise SynRcvd, IRS = seq, RCV.NXT = seq+1, RCV.WND = peer window, SND.UNA = ISS = 0, SND.NXT = 1, SYN cleared; one SYN+ACK frame with seq 0, ack seq+1, window 1024, ports and addresses swapped |
| `TcpSpec.SegmentLength` | src/tcp.rs:229-236 | SEG.LEN = (data length mod 2^32) + FIN + SYN, and it panics exactly when that sum reaches 2^32 |
| `TcpSpec.Acceptability` | src/tcp.rs:237-265 | the RFC 793 section 3.3 table over the window [RCV.NXT, RCV.NXT+RCV.WND): silent return exactly for an empty segment on a zero window off RCV.NXT; acceptable exactly per the four cases |
| `TcpSpec.Admit` | src/tcp.rs:229-277 | goes on to the ACK guards iff SEG.LEN exists, the segment is acceptable and carries ACK, with RCV.NXT = SEG.SEQ + SEG.LEN; RCV.* changes otherwise only for an acceptable ACK-less segment, which ends with nothing sent |
| `TcpSpec.OnPacketSpec` | src/tcp.rs:217-349 | the state never moves backwards in SynRcvd < Estab < FinWait1 < FinWait2 < TimeWait; at most two frames; ISS, IRS, both windows, link prefix and ACK/RST flags unchanged |
| `TcpSpec.SynRcvdGuard` | src/tcp.rs:280-297 | the connection is unchanged or moves from SynRcvd to Estab and nothing else |
| `TcpSpec.AckPhase` | src/tcp.rs:280-320 | never moves the state back; at most two frames; RCV.*, ISS and SND.WND unchanged |
| `TcpSpec.AckAccepted` | src/tcp.rs:305-320 | SND.UNA becomes SEG.ACK; the state does not move back |
| `TcpSpec.ClosePhase` | src/tcp.rs:322-346 | sends at most one more frame after those already sent; only SND.NXT of the send space can change; the state does not move back |
| `TcpConnection.Nic.Send` | src/tcp.rs:202 | appends the frame to the device's log |
| `TcpConnection.Connection.constructor` | src/tcp.rs:108-142 | the fields hold the given values |
| `TcpConnection.Connection.Accept` | src/tcp.rs:99-149 | no connection and no frame on overflow; otherwise a fresh connection equal to `AcceptSpec` and its SYN+ACK appended to the device |
| `TcpConnection.Connection.Write` | src/tcp.rs:151-204 | the object becomes `WriteSpec`'s connection, its frame is appended to the device, and the payload byte count is returned |
| `TcpConnection.Connection.SendReset` | src/tcp.rs:206-215 | the object and the device change as `ResetSpec` says |
| `TcpConnection.Connection.OnPacket` | src/tcp.rs:217-277 | the object, the device's log and the outcome are those of `OnPacketSpec` |
| `TcpConnection.Connection.CheckAcceptability` | src/tcp.rs:237-265 | the verdict of the acceptability chain is `Acceptability` of the receive space |
| `TcpConnection.Connection.OnAck` | src/tcp.rs:279-304 | the object, the device's log and the outcome are those of `AckPhase` |
| `TcpConnection.Connection.OnAckAccepted` | src/tcp.rs:305-320 | the object, the device's log and the outcome are those of `AckAccepted` |
| `TcpConnection.Connection.OnClose` | src/tcp.rs:322-346 | the object, the device's log and the outcome are those of `ClosePhase` |
| `TcpProperties.ReachableOrdersSendSpace` | src/tcp.rs:299-305 | in a reachable connection ISS =< SND.UNA =< SND.NXT =< ISS + 2 going forward, so SND.UNA never overtakes SND.NXT |
| `TcpProperties.AcceptReachable` | src/tcp.rs:106-148 | `accept` yields a reachable connection |
| `TcpProperties.OnPacketPreservesReachable` | src/tcp.rs:217-349 | a segment that does not panic keeps a connection reachable |
| `TcpProperties.AdmitPreservesReachable` | src/tcp.rs:229-277 | the acceptability test and the RCV.NXT update keep a connection reachable, whether or not the segment goes on to the ACK guards |
| `TcpProperties.EmptyWritePreservesReachable` | src/tcp.rs:151-204 | an empty frame without SYN or FIN leaves the send space and reachability unchanged |
| `TcpProperties.AckPhasePreservesReachable` | src/tcp.rs:280-320 | the ACK guards keep a connection reachable |
| `TcpProperties.AckAcceptedPreservesReachable` | src/tcp.rs:305-320 | an acceptable ACK moves SND.UNA one step, to SND.NXT, keeping the connection reachable |
| `TcpProperties.ClosePhasePreservesReachable` | src/tcp.rs:322-346 | the FinWait1 and FIN guards keep a connection reachable, including FinWait1 right after our FIN is acked |
| `TcpProperties.ResetPreservesReachable` | src/tcp.rs:206-215 | a reset consumes no sequence number and keeps the connection reachable |
| `TcpProperties.WriteConsumesFlagsOnce` | src/tcp.rs:190-200 | a second empty write from the same template carries no SYN/FIN and does not move SND.NXT |
| `TcpProperties.WriteFrame` | src/tcp.rs:151-204 | SND.NXT moves forward by exactly payload + SYN + FIN mod 2^32; the payload written is at most the payload given and at most 1460 bytes; state, RCV.*, SND.UNA, ISS, ACK and RST unchanged |
| `TcpProperties.ZeroWindowProbeIgnored` | src/tcp.rs:239-242 | an empty segment on a zero window with seq other than RCV.NXT: nothing sent, nothing changed |
| `TcpProperties.UnacceptableSegmentAnswered` | src/tcp.rs:267-270 | any other unacceptable segment: exactly one empty frame with SND.NXT/RCV.NXT; state, RCV.* and SND.UNA unchanged |
| `TcpProperties.DuplicateSegmentRejected` | src/tcp.rs:246-270 | an empty replay starting before RCV.NXT on an open window leaves RCV.* and state unchanged and gets one reply |
| `TcpProperties.AcceptedWithoutAck` | src/tcp.rs:272-277 | an acceptable ACK-less segment only sets RCV.NXT = SEG.SEQ + SEG.LEN |
| `TcpProperties.SynRcvdTransition` | src/tcp.rs:280-297 | SynRcvd is left iff SND.UNA =< SEG.ACK =< SND.NXT |
| `TcpProperties.UnaAdvancesWithinSent` | src/tcp.rs:299-305 | SND.UNA is unchanged or becomes a SEG.ACK with SND.UNA < SEG.ACK =< SND.NXT |
| `TcpProperties.EstabSendsFin` | src/tcp.rs:309-329 | from a reachable Estab, the ACK of our SYN makes the engine send exactly one frame, a FIN at the old SND.NXT; SND.NXT advances by one and the state is exactly FinWait1; the segment panics exactly when ISS + 2 overflows |
| `TcpProperties.DataAfterAckPanics` | src/tcp.rs:305-308 | in Estab/FinWait1/FinWait2, including the ACK that moves SynRcvd to Estab, an admitted segment with an acceptable ACK and data ends with the data-assertion panic, in the state the SynRcvd guard left |
| `TcpProperties.AckPhaseDataPanics` | src/tcp.rs:280-308 | after the SynRcvd guard, an acceptable ACK with data in Estab/FinWait1/FinWait2 panics on the data assertion and leaves the state the guard set |
| `TcpProperties.FinWait1Transition` | src/tcp.rs:322-329 | in FinWait1, FinWait2 is reached iff SND.UNA becomes ISS + 2 |
| `TcpProperties.TimeWaitOnlyOnFin` | src/tcp.rs:305-346 | from a reachable connection TimeWait is entered only from FinWait1, on an inbound FIN+ACK, with exactly one frame sent, empty and acknowledging the new RCV.NXT |
| `TcpProperties.AckPhaseTimeWait` | src/tcp.rs:280-346 | the ACK guards reach TimeWait only from FinWait1 on a FIN, with exactly one empty frame acknowledging RCV.NXT |
| `TcpProperties.AcceptedAckPhaseTimeWait` | src/tcp.rs:299-346 | when SND.UNA < SEG.ACK =< SND.NXT in a state past SynRcvd, the ACK guards reach TimeWait only from FinWait1 on a FIN, with exactly one empty frame acknowledging RCV.NXT |
| `TcpProperties.EstabAckAvoidsTimeWait` | src/tcp.rs:305-346 | in a reachable Estab, an acceptable ACK (SEG.ACK == ISS+1, the ACK of our SYN) never leads to TimeWait |
| `TcpProperties.EstabAckPhaseAvoidsTimeWait` | src/tcp.rs:280-320 | an acceptable ACK that leaves SynRcvd or arrives in Estab never leads to TimeWait |
| `TcpProperties.FinWait1AckPhaseTimeWait` | src/tcp.rs:299-346 | in FinWait1 an acceptable ACK leads to TimeWait only on a FIN, with exactly one empty frame acknowledging RCV.NXT |
| `TcpProperties.AckAcceptedTimeWait` | src/tcp.rs:305-346 | an acceptable ACK leads to TimeWait only from FinWait1 on a FIN, with exactly one frame |
| `TcpProperties.ClosePhaseTimeWait` | src/tcp.rs:322-346 | the FIN guard enters TimeWait only from FinWait1 or FinWait2 on a FIN, appending exactly one empty frame acknowledging RCV.NXT |
| `TcpProperties.FinWait1FinAckReachesTimeWait` | src/tcp.rs:305-339 | a reachable FinWait1 receiving the peer's in-window FIN with the ACK of our FIN and no data reaches TimeWait, sending exactly one frame with seq SND.NXT that acknowledges the FIN |
| `TcpProperties.FinWait2IsAbsorbing` | src/tcp.rs:299-304 | from a reachable FinWait2 no segment changes the state, and an ACK-bearing one gets a reply exactly when it is unacceptable (one empty frame) |
| `TcpProperties.Run` | src/tcp.rs:217-349 | over any sequence of segments, processed in order until a panic, the state never moves back, ISS and IRS stay fixed, and at most 2·|segs| frames go out in total |
| `TcpProperties.RunPreservesReachable` | src/tcp.rs:217-349 | a run from a reachable connection that does not panic ends reachable |
| `TcpProperties.HandshakeAndActiveClose` | src/tcp.rs:280-329 | after `accept`, ACK 1 gives FinWait1 with one FIN frame (seq 1, ack IRS+1), then ACK 2 gives FinWait2 with nothing sent |
| `TcpCorrected.AckPhaseCorrected` | src/tcp.rs:280-320 | the corrected ACK guards (a duplicate SEG.ACK == SND.UNA in Estab/FinWait1/FinWait2 goes on to the close guards, every other segment as written) never move the state back and leave RCV.* and ISS alone |
| `TcpCorrected.OnPacketCorrected` | src/tcp.rs:217-349 | the corrected engine never moves the state back and keeps ISS and IRS |
| `TcpCorrected.CorrectedAgreesUnlessDuplicateAck` | src/tcp.rs:217-349 | the corrected engine and the code as written give the same result whenever SEG.ACK is not SND.UNA |
| `TcpCorrected.CorrectedPreservesReachable` | src/tcp.rs:217-349 | the corrected engine keeps a connection reachable |
| `TcpCorrected.AckPhaseCorrectedPreservesReachable` | src/tcp.rs:280-346 | the corrected ACK guards keep a connection reachable |
| `TcpCorrected.CorrectedFinWait2ReachesTimeWait` | src/tcp.rs:331-339 | in FinWait2 the peer's in-window FIN+ACK leads to TimeWait with exactly one reply acknowledging the FIN |
| `TcpCorrected.CorrectedActiveClose` | src/tcp.rs:280-339 | accept, ACK of SYN, ACK of FIN, FIN: FinWait1 with one FIN frame, FinWait2, then TimeWait with one reply |
| `TcpCorrected.AsWrittenActiveCloseStalls` | src/tcp.rs:299-304 | the same segments leave the code as written in FinWait2 with the FIN dropped and nothing sent |

## Findings

| source | as written | input that shows it | evidently intended | confidence | as-written member | corrected member |
|---|---|---|---|---|---|---|
| src/tcp.rs:299-304 | in Estab/FinWait1/FinWait2 the segment is dropped unless SND.UNA < SEG.ACK =< SND.NXT; in FinWait2 SND.UNA == SND.NXT, so every ACK-bearing segment returns before the FIN guard at src/tcp.rs:331-339 | after `accept` with SYN seq S: ACK 1, then ACK 2, then FIN+ACK with seq S+1 and ack 2, with a non-zero window in the SYN: the state stays FinWait2 and no reply is sent | an ACK with SEG.ACK == SND.UNA is ignored and processing goes on (RFC 793 section 3.9 has no rule for it; section 3.10.7.4 of RFC 9293 ignores SEG.ACK =< SND.UNA; the correction covers SEG.ACK == SND.UNA only), so the peer's FIN moves FinWait2 to TimeWait with one reply | high (not executed) | `TcpProperties.FinWait2IsAbsorbing` | `TcpCorrected.CorrectedFinWait2ReachesTimeWait` |

The `Connection` class models the code as written. The corrected engine `TcpCorrected.OnPacketCorrected` is what the full active-close lemma `TcpCorrected.CorrectedActiveClose` is stated over. `TcpCorrected.AsWrittenActiveCloseStalls` shows the same input against the code as written.

## Left out

- The tun device's read loop, the link-protocol and IP-protocol filters and the per-flow `HashMap` in `src/main.rs` are not part of this model. They are dispatch glue around the engine.
- Device I/O errors are not modelled. `Nic.Send` always succeeds, so the `?` paths of `write`, `accept` and `on_packet` are not modelled.
- Header serialisation, the IP and TCP header `write` calls and their printed errors are not modelled. They are foreign library calls.
- The TCP checksum is not modelled. The frame records the header fields the engine sets and the payload bytes. The checksum in the source is computed over an empty payload even when one is written, and the model does not capture that either.
- `wl1`, `wl2` and `up` of both sequence spaces are not modelled. They are stored but never read.
- The IP header's fields other than addresses, TTL and payload length are not modelled, and neither are the TCP header's fields other than ports, numbers, window and the SYN/ACK/FIN/RST flags. The engine never changes the others after building the template.
- The diagnostics (`eprintln!`, `eprint!`, `dbg!`, `println!`) are not modelled. They have no effect on state.
- The unused `data` argument of `accept` and `iph` argument of `on_packet` are not modelled. The source never reads them.
- Release-build wrap-around of the three non-wrapping additions is not modelled. Only the debug-build panic is, as an explicit `Panic` outcome. After a panic the model returns the connection as it was at that point, rather than unwinding.
- `Connection.Accept` returns `null` with a `Panic` outcome on the overflow, rather than unwinding.
