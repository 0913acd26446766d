/**
 * The ACK guard of Estab, FinWait1 and FinWait2 with an acknowledgment
 * SEG.ACK == SND.UNA ignored instead of ending the segment's processing, as
 * section 3.10.7.4 of RFC 9293 directs (it ignores SEG.ACK =< SND.UNA; section
 * 3.9 of RFC 793 has no rule for SEG.ACK == SND.UNA, so processing goes on).
 * The correction covers SEG.ACK == SND.UNA only: a SEG.ACK before SND.UNA
 * still ends processing, as in module TcpSpec, whose engine is otherwise kept.
 * With it, a FIN that arrives in FinWait2 takes the connection to TimeWait.
 */
module TcpCorrected {
  import opened SeqSpace
  import opened TcpSpec
  import opened TcpProperties

  /**
   * The SynRcvd guard, then the ACK guard: a duplicate SEG.ACK == SND.UNA in
   * Estab, FinWait1 or FinWait2 goes on to the FinWait1 and FIN guards
   * without touching SND.UNA; every other segment is handled as in
   * `AckPhase`, which returns when SEG.ACK lies outside (SND.UNA, SND.NXT].
   */
  function AckPhaseCorrected(c: Conn, h: TcpView, dataLen: nat): (r: Step)
    ensures Rank(r.conn.state) >= Rank(c.state)
    ensures r.conn.send.iss == c.send.iss && r.conn.recv == c.recv
  {
    var c1 := SynRcvdGuard(c, h.ackNo);
    if AcksData(c1.state) && h.ackNo == c1.send.una then
      ClosePhase(c1, h, [])
    else
      AckPhase(c, h, dataLen)
  }

  /** `on_packet` with the corrected ACK guard. */
  function OnPacketCorrected(c: Conn, h: TcpView, data: seq<byte>): (r: Step)
    ensures Rank(r.conn.state) >= Rank(c.state)
    ensures r.conn.send.iss == c.send.iss && r.conn.recv.irs == c.recv.irs
  {
    match Admit(c, h, data)
    case Finished(step) => step
    case Admitted(c1) => AckPhaseCorrected(c1, h, |data|)
  }

  /**
   * The correction changes nothing unless the segment acknowledges exactly
   * SND.UNA.
   */
  lemma CorrectedAgreesUnlessDuplicateAck(c: Conn, h: TcpView, data: seq<byte>)
    requires h.ackNo != c.send.una
    ensures OnPacketCorrected(c, h, data) == OnPacketSpec(c, h, data)
  {
    match Admit(c, h, data)
    case Finished(_) =>
    case Admitted(c1) =>
      assert c1.send.una == c.send.una;
  }

  /** The corrected engine keeps a connection reachable too. */
  lemma CorrectedPreservesReachable(c: Conn, h: TcpView, data: seq<byte>)
    requires Reachable(c)
    ensures OnPacketCorrected(c, h, data).outcome == Done ==> Reachable(OnPacketCorrected(c, h, data).conn)
  {
    AdmitPreservesReachable(c, h, data);
    match Admit(c, h, data)
    case Finished(_) =>
    case Admitted(c1) =>
      AckPhaseCorrectedPreservesReachable(c1, h, |data|);
  }

  /** The corrected ACK guards keep a connection reachable. */
  lemma AckPhaseCorrectedPreservesReachable(c: Conn, h: TcpView, dataLen: nat)
    requires Reachable(c)
    ensures AckPhaseCorrected(c, h, dataLen).outcome == Done ==> Reachable(AckPhaseCorrected(c, h, dataLen).conn)
  {
    var c1 := SynRcvdGuard(c, h.ackNo);
    if AcksData(c1.state) && h.ackNo == c1.send.una {
      assert Reachable(c1);
      ClosePhasePreservesReachable(c1, h, []);
    } else {
      AckPhasePreservesReachable(c, h, dataLen);
    }
  }

  /**
   * In FinWait2 the peer's FIN, acknowledging our FIN and arriving at
   * RCV.NXT, takes the connection to TimeWait with exactly one reply, which
   * acknowledges the FIN.
   */
  lemma CorrectedFinWait2ReachesTimeWait(c: Conn, h: TcpView)
    requires Reachable(c) && c.state == FinWait2
    requires h.fin && h.ack && !h.syn && h.ackNo == c.send.nxt
    requires c.recv.wnd > 0 && h.seqNo == c.recv.nxt
    ensures var r := OnPacketCorrected(c, h, []);
            && r.conn.state == TimeWait && r.outcome == Done && |r.out| == 1
            && r.out[0].tcp.seqNo == c.send.nxt && r.out[0].tcp.ackNo == WrappingAdd(h.seqNo, 1)
  {
    assert Acceptability(c.recv, h.seqNo, 1) == Acceptable;
  }

  /**
   * The whole active close with separate segments: after `accept`, the ACK
   * of our SYN, the ACK of our FIN and then the peer's FIN take the
   * corrected engine to TimeWait, each reply as expected.
   */
  lemma CorrectedActiveClose(iph: Ipv4View, syn: TcpView, eth: EthPrefix)
    requires syn.seqNo < MODULUS - 1 && syn.window > 0
    ensures AcceptSpec(iph, syn, eth).Accepted?
    ensures var c0 := AcceptSpec(iph, syn, eth).conn;
            var r1 := OnPacketCorrected(c0, PeerAck(syn, syn.seqNo + 1, 1, false), []);
            var r2 := OnPacketCorrected(r1.conn, PeerAck(syn, syn.seqNo + 1, 2, false), []);
            var r3 := OnPacketCorrected(r2.conn, PeerAck(syn, syn.seqNo + 1, 2, true), []);
            && r1.conn.state == FinWait1 && |r1.out| == 1 && r1.out[0].tcp.fin
            && r2.conn.state == FinWait2 && r2.out == []
            && r3.conn.state == TimeWait && r3.outcome == Done && |r3.out| == 1
            && r3.out[0].tcp.ackNo == WrappingAdd(syn.seqNo + 1, 1)
  {
    var c0 := AcceptSpec(iph, syn, eth).conn;
    AcceptReachable(iph, syn, eth);
    HandshakeAndActiveClose(iph, syn, eth);
    var h1 := PeerAck(syn, syn.seqNo + 1, 1, false);
    CorrectedAgreesUnlessDuplicateAck(c0, h1, []);
    var r1 := OnPacketSpec(c0, h1, []);
    OnPacketPreservesReachable(c0, h1, []);
    var h2 := PeerAck(syn, syn.seqNo + 1, 2, false);
    CorrectedAgreesUnlessDuplicateAck(r1.conn, h2, []);
    var r2 := OnPacketSpec(r1.conn, h2, []);
    OnPacketPreservesReachable(r1.conn, h2, []);
    CorrectedFinWait2ReachesTimeWait(r2.conn, PeerAck(syn, syn.seqNo + 1, 2, true));
  }

  /**
   * The same three segments leave the engine as written in FinWait2: the
   * peer's FIN is dropped and no reply is sent.
   */
  lemma AsWrittenActiveCloseStalls(iph: Ipv4View, syn: TcpView, eth: EthPrefix)
    requires syn.seqNo < MODULUS - 1 && syn.window > 0
    ensures AcceptSpec(iph, syn, eth).Accepted?
    ensures var c0 := AcceptSpec(iph, syn, eth).conn;
            var r1 := OnPacketSpec(c0, PeerAck(syn, syn.seqNo + 1, 1, false), []);
            var r2 := OnPacketSpec(r1.conn, PeerAck(syn, syn.seqNo + 1, 2, false), []);
            var r3 := OnPacketSpec(r2.conn, PeerAck(syn, syn.seqNo + 1, 2, true), []);
            r3.conn.state == FinWait2 && r3.out == []
  {
    var c0 := AcceptSpec(iph, syn, eth).conn;
    AcceptReachable(iph, syn, eth);
    HandshakeAndActiveClose(iph, syn, eth);
    var h1 := PeerAck(syn, syn.seqNo + 1, 1, false);
    var r1 := OnPacketSpec(c0, h1, []);
    OnPacketPreservesReachable(c0, h1, []);
    var h2 := PeerAck(syn, syn.seqNo + 1, 2, false);
    var r2 := OnPacketSpec(r1.conn, h2, []);
    OnPacketPreservesReachable(r1.conn, h2, []);
    var h3 := PeerAck(syn, syn.seqNo + 1, 2, true);
    FinWait2IsAbsorbing(r2.conn, h3, []);
    assert Acceptability(r2.conn.recv, h3.seqNo, 1) == Acceptable;
  }
}
