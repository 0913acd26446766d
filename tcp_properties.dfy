/**
 * What the engine guarantees: the states a connection can reach from
 * `accept`, how each guard of `on_packet` moves the state and the send
 * sequence space, and what happens over a whole sequence of segments.
 */
module TcpProperties {
  import opened SeqSpace
  import opened TcpSpec

  // ---------------------------------------------------------------------------
  // The reachable states
  // ---------------------------------------------------------------------------

  /**
   * An invariant that holds of every connection `accept` followed by any
   * segments (without a panic) can produce; it leaves ISS, RST and RCV.* free,
   * so it also holds of some connections no run produces.  Only the SYN and
   * our own FIN consume send sequence numbers, so SND.NXT is ISS + 1 until
   * the FIN is sent and ISS + 2 after, and SND.UNA trails it as each is
   * acknowledged.
   */
  predicate Reachable(c: Conn)
  {
    var iss := c.send.iss;
    && !c.tcp.syn && !c.tcp.fin && c.tcp.ack
    && match c.state
       case Closed => false
       case SynRcvd | Estab => c.send.una == iss && c.send.nxt == WrappingAdd(iss, 1)
       case FinWait1 => c.send.una == WrappingAdd(iss, 1) && c.send.nxt == WrappingAdd(iss, 2)
       case FinWait2 | TimeWait => c.send.una == WrappingAdd(iss, 2) && c.send.nxt == WrappingAdd(iss, 2)
  }

  /** In a reachable connection SND.UNA never overtakes SND.NXT. */
  lemma ReachableOrdersSendSpace(c: Conn)
    requires Reachable(c)
    ensures Dist(c.send.iss, c.send.una) <= Dist(c.send.iss, c.send.nxt) <= 2
    ensures Dist(c.send.una, c.send.nxt) <= 1
    ensures c.send.nxt == WrappingAdd(c.send.una, Dist(c.send.una, c.send.nxt))
  {
  }

  /** `accept` produces a reachable connection. */
  lemma AcceptReachable(iph: Ipv4View, tcph: TcpView, eth: EthPrefix)
    requires AcceptSpec(iph, tcph, eth).Accepted?
    ensures Reachable(AcceptSpec(iph, tcph, eth).conn)
  {
  }

  /** Every segment that does not panic keeps a connection reachable. */
  lemma OnPacketPreservesReachable(c: Conn, h: TcpView, data: seq<byte>)
    requires Reachable(c)
    ensures OnPacketSpec(c, h, data).outcome == Done ==> Reachable(OnPacketSpec(c, h, data).conn)
  {
    AdmitPreservesReachable(c, h, data);
    match Admit(c, h, data)
    case Finished(_) =>
    case Admitted(c1) =>
      AckPhasePreservesReachable(c1, h, |data|);
  }

  /** Admission keeps a connection reachable, whether it ends the segment or not. */
  lemma AdmitPreservesReachable(c: Conn, h: TcpView, data: seq<byte>)
    requires Reachable(c)
    ensures match Admit(c, h, data)
            case Finished(step) => Reachable(step.conn)
            case Admitted(c1) => Reachable(c1)
  {
    EmptyWritePreservesReachable(c);
  }

  /** An empty segment without SYN or FIN consumes no sequence number. */
  lemma EmptyWritePreservesReachable(c: Conn)
    requires Reachable(c)
    ensures Reachable(WriteSpec(c, []).conn) && WriteSpec(c, []).conn.send == c.send
  {
  }

  lemma AckPhasePreservesReachable(c: Conn, h: TcpView, dataLen: nat)
    requires Reachable(c)
    ensures AckPhase(c, h, dataLen).outcome == Done ==> Reachable(AckPhase(c, h, dataLen).conn)
  {
    var c1 := SynRcvdGuard(c, h.ackNo);
    if AcksData(c1.state) {
      if IsBetweenWrapped(c1.send.una, h.ackNo, WrappingAdd(c1.send.nxt, 1)) {
        AckWindowTest(c1.send.una, c1.send.nxt, h.ackNo);
        AckAcceptedPreservesReachable(c1, h, dataLen);
      }
    } else {
      ClosePhasePreservesReachable(c1, h, []);
    }
  }

  /** An acceptable ACK of a reachable connection is one step of SND.UNA towards SND.NXT. */
  lemma AckAcceptedPreservesReachable(c: Conn, h: TcpView, dataLen: nat)
    requires Reachable(c) && AcksData(c.state)
    requires 0 < Dist(c.send.una, h.ackNo) <= Dist(c.send.una, c.send.nxt)
    ensures h.ackNo == c.send.nxt
    ensures AckAccepted(c, h, dataLen).outcome == Done ==> Reachable(AckAccepted(c, h, dataLen).conn)
  {
    var iss := c.send.iss;
    assert c.state != FinWait2;
    assert h.ackNo == c.send.nxt;
    var c2 := c.(send := c.send.(una := h.ackNo));
    if dataLen == 0 {
      if c2.state == Estab {
        var w := WriteSpec(c2.(tcp := c2.tcp.(fin := true)), []);
        assert w.conn.send.nxt == WrappingAdd(iss, 2);
        ClosePhasePreservesReachable(w.conn.(state := FinWait1), h, [w.segment]);
      } else {
        ClosePhasePreservesReachable(c2, h, []);
      }
    }
  }

  /**
   * The FinWait1 and FIN guards keep a connection reachable, including one in
   * FinWait1 whose FIN has just been acknowledged.
   */
  lemma ClosePhasePreservesReachable(c: Conn, h: TcpView, out: seq<Segment>)
    requires |out| <= 1
    requires Reachable(c) || Reachable(c.(state := FinWait2))
    requires c.state == FinWait1 || Reachable(c)
    ensures ClosePhase(c, h, out).outcome == Done ==> Reachable(ClosePhase(c, h, out).conn)
  {
  }

  /** Reset keeps a connection reachable: it consumes no sequence number. */
  lemma ResetPreservesReachable(c: Conn)
    requires Reachable(c)
    ensures Reachable(ResetSpec(c).conn) && ResetSpec(c).conn.send == c.send
  {
  }

  // ---------------------------------------------------------------------------
  // The outgoing-segment builder
  // ---------------------------------------------------------------------------

  /**
   * A control flag is consumed once: after a write, a second empty write
   * from the same template carries neither SYN nor FIN and leaves SND.NXT
   * where the first one put it.
   */
  lemma WriteConsumesFlagsOnce(c: Conn, payload: seq<byte>)
    ensures var w1 := WriteSpec(c, payload);
            var w2 := WriteSpec(w1.conn, []);
            && !w2.segment.tcp.syn && !w2.segment.tcp.fin
            && w2.segment.tcp.seqNo == w1.conn.send.nxt
            && w2.conn.send == w1.conn.send
  {
  }

  /** A write leaves everything but SND.NXT, the templates' numbers and flags and the IP length alone. */
  lemma WriteFrame(c: Conn, payload: seq<byte>)
    ensures var w := WriteSpec(c, payload);
            && w.conn.state == c.state && w.conn.recv == c.recv
            && w.conn.send.una == c.send.una && w.conn.send.iss == c.send.iss
            && w.conn.tcp.ack == c.tcp.ack && w.conn.tcp.rst == c.tcp.rst
            && Dist(c.send.nxt, w.conn.send.nxt) == (w.payloadBytes + Flag(c.tcp.syn) + Flag(c.tcp.fin)) % MODULUS
            && w.payloadBytes <= |payload| && w.payloadBytes <= MAX_PAYLOAD
  {
    var w := WriteSpec(c, payload);
    DistOfAdd(c.send.nxt, w.payloadBytes + Flag(c.tcp.syn) + Flag(c.tcp.fin));
  }

  // ---------------------------------------------------------------------------
  // The acceptability test
  // ---------------------------------------------------------------------------

  /**
   * A zero-length segment on a zero window whose sequence number is not
   * RCV.NXT is returned from with nothing sent and nothing changed.
   */
  lemma ZeroWindowProbeIgnored(c: Conn, h: TcpView, data: seq<byte>)
    requires data == [] && !h.syn && !h.fin
    requires c.recv.wnd == 0 && h.seqNo != c.recv.nxt
    ensures OnPacketSpec(c, h, data) == Step(c, [], Done)
  {
  }

  /**
   * Any other unacceptable segment is answered by one empty segment carrying
   * SND.NXT and RCV.NXT, and the state, RCV.NXT and SND.UNA stay put.
   */
  lemma UnacceptableSegmentAnswered(c: Conn, h: TcpView, data: seq<byte>)
    requires SegmentLength(h, |data|).Some?
    requires Acceptability(c.recv, h.seqNo, SegmentLength(h, |data|).value) == Unacceptable
    ensures var r := OnPacketSpec(c, h, data);
            && r.outcome == Done && |r.out| == 1
            && r.out[0].payload == [] && r.out[0].tcp.seqNo == c.send.nxt && r.out[0].tcp.ackNo == c.recv.nxt
            && r.conn.state == c.state && r.conn.recv == c.recv && r.conn.send.una == c.send.una
  {
  }

  /**
   * Replaying an old segment: an empty segment that starts strictly before
   * RCV.NXT (by less than 2^32 - 2^16) on an open window is unacceptable, so
   * RCV.NXT does not move.
   */
  lemma DuplicateSegmentRejected(c: Conn, h: TcpView)
    requires !h.syn && !h.fin && c.recv.wnd > 0
    requires 0 < Dist(h.seqNo, c.recv.nxt) <= MODULUS - 0x1_0000
    ensures var r := OnPacketSpec(c, h, []);
            r.conn.recv == c.recv && r.conn.state == c.state && |r.out| == 1
  {
    assert Dist(c.recv.nxt, h.seqNo) == MODULUS - Dist(h.seqNo, c.recv.nxt);
  }

  /**
   * An acceptable segment moves RCV.NXT to SEG.SEQ + SEG.LEN; without ACK
   * nothing else changes and nothing is sent.
   */
  lemma AcceptedWithoutAck(c: Conn, h: TcpView, data: seq<byte>)
    requires SegmentLength(h, |data|).Some?
    requires Acceptability(c.recv, h.seqNo, SegmentLength(h, |data|).value) == Acceptable
    requires !h.ack
    ensures OnPacketSpec(c, h, data) ==
      Step(c.(recv := c.recv.(nxt := WrappingAdd(h.seqNo, SegmentLength(h, |data|).value))), [], Done)
  {
  }

  // ---------------------------------------------------------------------------
  // The ACK guards
  // ---------------------------------------------------------------------------

  /** The segments that reach the ACK guards. */
  predicate AdmittedWithAck(c: Conn, h: TcpView, data: seq<byte>)
  {
    && SegmentLength(h, |data|).Some?
    && Acceptability(c.recv, h.seqNo, SegmentLength(h, |data|).value) == Acceptable
    && h.ack
  }

  /** SynRcvd is left exactly when SND.UNA =< SEG.ACK =< SND.NXT. */
  lemma SynRcvdTransition(c: Conn, h: TcpView, data: seq<byte>)
    requires c.state == SynRcvd && AdmittedWithAck(c, h, data)
    requires Dist(c.send.una, c.send.nxt) < MODULUS - 2
    ensures OnPacketSpec(c, h, data).conn.state != SynRcvd <==> Dist(c.send.una, h.ackNo) <= Dist(c.send.una, c.send.nxt)
  {
    InclusiveAckWindowTest(c.send.una, c.send.nxt, h.ackNo);
  }

  /**
   * SND.UNA changes only to an acknowledgment number with
   * SND.UNA < SEG.ACK =< SND.NXT, so it never overtakes SND.NXT.
   */
  lemma UnaAdvancesWithinSent(c: Conn, h: TcpView, data: seq<byte>)
    requires Dist(c.send.una, c.send.nxt) < MODULUS - 1
    ensures var r := OnPacketSpec(c, h, data);
            || r.conn.send.una == c.send.una
            || (r.conn.send.una == h.ackNo && 0 < Dist(c.send.una, h.ackNo) <= Dist(c.send.una, c.send.nxt))
  {
    AckWindowTest(c.send.una, c.send.nxt, h.ackNo);
  }

  /**
   * From Estab an acceptable ACK starts the active close: exactly one segment,
   * carrying FIN at the old SND.NXT, and FinWait1 with SND.NXT one further on;
   * the FinWait1 guard then panics exactly when ISS + 2 overflows.
   */
  lemma EstabSendsFin(c: Conn, h: TcpView)
    requires Reachable(c) && c.state == Estab && AdmittedWithAck(c, h, [])
    requires h.ackNo == WrappingAdd(c.send.una, 1)
    ensures var r := OnPacketSpec(c, h, []);
            && |r.out| == 1 && r.out[0].tcp.fin && r.out[0].tcp.seqNo == c.send.nxt
            && r.conn.send.una == h.ackNo && r.conn.send.nxt == WrappingAdd(c.send.nxt, 1)
            && r.conn.state == FinWait1
            && (r.outcome == Done <==> c.send.iss + 2 < MODULUS)
  {
    AckWindowTest(c.send.una, c.send.nxt, h.ackNo);
  }

  /**
   * Data on an acceptable ACK in a synchronised state, including the ACK that
   * moves SynRcvd to Estab, ends the segment with the `assert!(data.is_empty())`
   * panic, in the state the SynRcvd guard left.
   */
  lemma DataAfterAckPanics(c: Conn, h: TcpView, data: seq<byte>)
    requires Reachable(c) && AcksData(SynRcvdGuard(c, h.ackNo).state) && AdmittedWithAck(c, h, data) && data != []
    requires 0 < Dist(c.send.una, h.ackNo) <= Dist(c.send.una, c.send.nxt)
    ensures OnPacketSpec(c, h, data).outcome == Panic(DataInSynchronisedState)
    ensures OnPacketSpec(c, h, data).conn.state == SynRcvdGuard(c, h.ackNo).state
  {
    AdmitPreservesReachable(c, h, data);
    match Admit(c, h, data)
    case Admitted(c1) =>
      assert SynRcvdGuard(c1, h.ackNo).state == SynRcvdGuard(c, h.ackNo).state;
      AckPhaseDataPanics(c1, h, |data|);
  }

  /** The ACK guards panic on data that comes with an acceptable ACK. */
  lemma AckPhaseDataPanics(c: Conn, h: TcpView, dataLen: nat)
    requires Reachable(c) && AcksData(SynRcvdGuard(c, h.ackNo).state) && dataLen != 0
    requires 0 < Dist(c.send.una, h.ackNo) <= Dist(c.send.una, c.send.nxt)
    ensures AckPhase(c, h, dataLen).outcome == Panic(DataInSynchronisedState)
    ensures AckPhase(c, h, dataLen).conn.state == SynRcvdGuard(c, h.ackNo).state
  {
    AckWindowTest(c.send.una, c.send.nxt, h.ackNo);
  }

  /** In a reachable FinWait1, FinWait2 is reached exactly when SND.UNA becomes ISS + 2. */
  lemma FinWait1Transition(c: Conn, h: TcpView, data: seq<byte>)
    requires Reachable(c) && c.state == FinWait1 && c.send.iss + 2 < MODULUS
    requires AdmittedWithAck(c, h, data) && data == []
    ensures var r := OnPacketSpec(c, h, data);
            Rank(r.conn.state) >= Rank(FinWait2) <==> r.conn.send.una == c.send.iss + 2
  {
    var c1 := Admit(c, h, data).conn;
    AckWindowTest(c1.send.una, c1.send.nxt, h.ackNo);
    if IsBetweenWrapped(c1.send.una, h.ackNo, WrappingAdd(c1.send.nxt, 1)) {
      assert OnPacketSpec(c, h, data) == ClosePhase(c1.(send := c1.send.(una := h.ackNo)), h, []);
    } else {
      assert OnPacketSpec(c, h, data) == Step(c1, [], Done);
    }
  }

  /**
   * TimeWait is entered only from FinWait1, on an inbound FIN+ACK, by the FIN
   * guard, which sends exactly one segment, acknowledging through the new
   * RCV.NXT.  (From FinWait2 the ACK guard returns first.)
   */
  lemma TimeWaitOnlyOnFin(c: Conn, h: TcpView, data: seq<byte>)
    requires Reachable(c) && c.state != TimeWait
    ensures var r := OnPacketSpec(c, h, data);
            r.conn.state == TimeWait ==>
              && c.state == FinWait1 && h.fin && h.ack && r.outcome == Done && |r.out| == 1
              && r.out[0].tcp.ackNo == r.conn.recv.nxt
              && r.out[0].payload == []
  {
    match Admit(c, h, data)
    case Finished(_) =>
    case Admitted(c1) =>
      AckPhaseTimeWait(c1, h, |data|);
  }

  /** The ACK guards reach TimeWait only from FinWait1, on a FIN, with one segment. */
  lemma AckPhaseTimeWait(c: Conn, h: TcpView, dataLen: nat)
    requires Reachable(c) && c.state != TimeWait
    ensures var r := AckPhase(c, h, dataLen);
            r.conn.state == TimeWait ==>
              && c.state == FinWait1 && h.fin && r.outcome == Done && |r.out| == 1
              && r.out[0].tcp.ackNo == c.recv.nxt && r.out[0].payload == []
  {
    var c2 := SynRcvdGuard(c, h.ackNo);
    if c2.state == SynRcvd {
      assert AckPhase(c, h, dataLen) == ClosePhase(c2, h, []);
    } else if !IsBetweenWrapped(c2.send.una, h.ackNo, WrappingAdd(c2.send.nxt, 1)) {
      assert AckPhase(c, h, dataLen) == Step(c2, [], Done);
    } else {
      AcceptedAckPhaseTimeWait(c, h, dataLen);
    }
  }

  /** The TimeWait bound of `AckPhase` when the ACK guard lets the segment through. */
  lemma AcceptedAckPhaseTimeWait(c: Conn, h: TcpView, dataLen: nat)
    requires Reachable(c) && c.state != TimeWait
    requires SynRcvdGuard(c, h.ackNo).state != SynRcvd
    requires IsBetweenWrapped(c.send.una, h.ackNo, WrappingAdd(c.send.nxt, 1))
    ensures var r := AckPhase(c, h, dataLen);
            r.conn.state == TimeWait ==>
              && c.state == FinWait1 && h.fin && r.outcome == Done && |r.out| == 1
              && r.out[0].tcp.ackNo == c.recv.nxt && r.out[0].payload == []
  {
    AckWindowTest(c.send.una, c.send.nxt, h.ackNo);
    if SynRcvdGuard(c, h.ackNo).state == Estab {
      EstabAckPhaseAvoidsTimeWait(c, h, dataLen);
    } else if c.state == FinWait1 {
      FinWait1AckPhaseTimeWait(c, h, dataLen);
    }
  }

  /** From SynRcvd or Estab an acceptable ACK does not reach TimeWait. */
  lemma EstabAckPhaseAvoidsTimeWait(c: Conn, h: TcpView, dataLen: nat)
    requires Reachable(c) && SynRcvdGuard(c, h.ackNo).state == Estab
    requires 0 < Dist(c.send.una, h.ackNo) <= Dist(c.send.una, c.send.nxt)
    ensures AckPhase(c, h, dataLen).conn.state != TimeWait
  {
    var c2 := SynRcvdGuard(c, h.ackNo);
    AckWindowTest(c2.send.una, c2.send.nxt, h.ackNo);
    assert AckPhase(c, h, dataLen) == AckAccepted(c2, h, dataLen);
    EstabAckAvoidsTimeWait(c2, h, dataLen);
  }

  /** From FinWait1 an acceptable ACK reaches TimeWait only on a FIN, with one segment. */
  lemma FinWait1AckPhaseTimeWait(c: Conn, h: TcpView, dataLen: nat)
    requires Reachable(c) && c.state == FinWait1
    requires 0 < Dist(c.send.una, h.ackNo) <= Dist(c.send.una, c.send.nxt)
    ensures var r := AckPhase(c, h, dataLen);
            r.conn.state == TimeWait ==>
              && h.fin && r.outcome == Done && |r.out| == 1
              && r.out[0].tcp.ackNo == c.recv.nxt && r.out[0].payload == []
  {
    AckWindowTest(c.send.una, c.send.nxt, h.ackNo);
    assert AckPhase(c, h, dataLen) == AckAccepted(c, h, dataLen);
    AckAcceptedTimeWait(c, h, dataLen);
  }

  /** An acceptable ACK leads to TimeWait only from FinWait1. */
  lemma AckAcceptedTimeWait(c: Conn, h: TcpView, dataLen: nat)
    requires Reachable(c) && AcksData(c.state)
    requires 0 < Dist(c.send.una, h.ackNo) <= Dist(c.send.una, c.send.nxt)
    ensures var r := AckAccepted(c, h, dataLen);
            r.conn.state == TimeWait ==>
              && c.state == FinWait1 && h.fin && r.outcome == Done && |r.out| == 1
              && r.out[0].tcp.ackNo == c.recv.nxt && r.out[0].payload == []
  {
    if c.state == Estab {
      EstabAckAvoidsTimeWait(c, h, dataLen);
    } else if c.state == FinWait2 {
      assert false;
    } else if dataLen == 0 {
      var c3 := c.(send := c.send.(una := h.ackNo));
      assert AckAccepted(c, h, dataLen) == ClosePhase(c3, h, []);
      ClosePhaseTimeWait(c3, h, []);
    }
  }

  /** The FIN guard enters TimeWait only from FinWait1 or FinWait2, sending one segment. */
  lemma ClosePhaseTimeWait(c: Conn, h: TcpView, out: seq<Segment>)
    requires |out| <= 1
    ensures var r := ClosePhase(c, h, out);
            r.conn.state == TimeWait && c.state != TimeWait ==>
              && (c.state == FinWait1 || c.state == FinWait2) && h.fin && r.outcome == Done
              && |r.out| == |out| + 1 && r.out[|out|].tcp.ackNo == c.recv.nxt && r.out[|out|].payload == []
  {
  }

  /** From Estab an acceptable ACK ends in FinWait1 at the latest. */
  lemma EstabAckAvoidsTimeWait(c: Conn, h: TcpView, dataLen: nat)
    requires Reachable(c) && c.state == Estab && h.ackNo == WrappingAdd(c.send.iss, 1)
    ensures AckAccepted(c, h, dataLen).conn.state != TimeWait
  {
    var c2 := c.(send := c.send.(una := h.ackNo));
    if dataLen == 0 {
      var w := WriteSpec(c2.(tcp := c2.tcp.(fin := true)), []);
      assert w.conn.send.una != WrappingAdd(c.send.iss, 2) || c.send.iss + 2 >= MODULUS;
    }
  }

  /**
   * The path to TimeWait the code as written takes: a reachable FinWait1
   * that receives the peer's FIN together with the ACK of our FIN, in window
   * and without data, passes FinWait2 and reaches TimeWait, answering with
   * exactly one segment that acknowledges the FIN.
   */
  lemma FinWait1FinAckReachesTimeWait(c: Conn, h: TcpView)
    requires Reachable(c) && c.state == FinWait1 && c.send.iss + 2 < MODULUS
    requires h.fin && h.ack && !h.syn && h.ackNo == c.send.nxt
    requires c.recv.wnd > 0 && h.seqNo == c.recv.nxt
    ensures var r := OnPacketSpec(c, h, []);
            && r.conn.state == TimeWait && r.outcome == Done && |r.out| == 1
            && r.out[0].tcp.seqNo == c.send.nxt && r.out[0].tcp.ackNo == WrappingAdd(h.seqNo, 1)
  {
    assert Acceptability(c.recv, h.seqNo, 1) == Acceptable;
    AckWindowTest(c.send.una, c.send.nxt, h.ackNo);
  }

  /**
   * In a reachable FinWait2 SND.UNA equals SND.NXT, so the ACK guard rejects
   * every acknowledgment number and returns before the FIN guard: no segment
   * ever moves the connection out of FinWait2.  A FIN that arrives after the
   * ACK of our FIN is dropped.
   */
  lemma FinWait2IsAbsorbing(c: Conn, h: TcpView, data: seq<byte>)
    requires Reachable(c) && c.state == FinWait2
    ensures var r := OnPacketSpec(c, h, data);
            && r.conn.state == FinWait2
            && (h.ack ==> r.out == [] || r.out == [WriteSpec(c, []).segment])
            && (h.ack ==>
                  (r.out != [] <==>
                     && SegmentLength(h, |data|).Some?
                     && Acceptability(c.recv, h.seqNo, SegmentLength(h, |data|).value) == Unacceptable))
  {
    match Admit(c, h, data)
    case Finished(_) =>
    case Admitted(c1) =>
      AckWindowTest(c1.send.una, c1.send.nxt, h.ackNo);
  }

  // ---------------------------------------------------------------------------
  // Sequences of segments
  // ---------------------------------------------------------------------------

  /** An inbound segment: its TCP header and its payload. */
  datatype Inbound = Inbound(header: TcpView, data: seq<byte>)

  /**
   * Feed segments to a connection in arrival order; a panic ends the run.
   * Over the whole run the state never moves backwards, ISS and IRS never
   * change, and each segment causes at most two frames.
   */
  function Run(c: Conn, segs: seq<Inbound>): (r: Step)
    decreases |segs|
    ensures Rank(r.conn.state) >= Rank(c.state)
    ensures r.conn.send.iss == c.send.iss && r.conn.recv.irs == c.recv.irs
    ensures |r.out| <= 2 * |segs|
  {
    if segs == [] then
      Step(c, [], Done)
    else
      var s := OnPacketSpec(c, segs[0].header, segs[0].data);
      if s.outcome.Panic? then
        s
      else
        var rest := Run(s.conn, segs[1..]);
        Step(rest.conn, s.out + rest.out, rest.outcome)
  }

  /** A run from a reachable connection that does not panic ends reachable. */
  lemma {:induction false} RunPreservesReachable(c: Conn, segs: seq<Inbound>)
    requires Reachable(c)
    decreases |segs|
    ensures Run(c, segs).outcome == Done ==> Reachable(Run(c, segs).conn)
  {
    if segs != [] {
      var s := OnPacketSpec(c, segs[0].header, segs[0].data);
      OnPacketPreservesReachable(c, segs[0].header, segs[0].data);
      if s.outcome.Done? {
        RunPreservesReachable(s.conn, segs[1..]);
      }
    }
  }

  // ---------------------------------------------------------------------------
  // The handshake and active close, segment by segment
  // ---------------------------------------------------------------------------

  /** A segment from the peer with only ACK set. */
  function PeerAck(syn: TcpView, seqNo: u32, ackNo: u32, fin: bool): TcpView
  {
    TcpView(syn.sourcePort, syn.destinationPort, seqNo, ackNo, syn.window, false, true, fin)
  }

  /**
   * After `accept`, the peer's ACK of our SYN (ack 1) takes the connection
   * through Estab to FinWait1 and makes it send one FIN at sequence number 1;
   * the peer's ACK of that FIN (ack 2) then takes it to FinWait2.
   */
  lemma HandshakeAndActiveClose(iph: Ipv4View, syn: TcpView, eth: EthPrefix)
    requires syn.seqNo < MODULUS - 1
    ensures AcceptSpec(iph, syn, eth).Accepted?
    ensures var c0 := AcceptSpec(iph, syn, eth).conn;
            var r1 := OnPacketSpec(c0, PeerAck(syn, syn.seqNo + 1, 1, false), []);
            var r2 := OnPacketSpec(r1.conn, PeerAck(syn, syn.seqNo + 1, 2, false), []);
            && r1.conn.state == FinWait1 && r1.outcome == Done
            && |r1.out| == 1 && r1.out[0].tcp.fin && r1.out[0].tcp.seqNo == 1
            && r1.out[0].tcp.ackNo == syn.seqNo + 1
            && r2.conn.state == FinWait2 && r2.out == [] && r2.outcome == Done
  {
    var c0 := AcceptSpec(iph, syn, eth).conn;
    var h1 := PeerAck(syn, syn.seqNo + 1, 1, false);
    assert Acceptability(c0.recv, h1.seqNo, 0) == Acceptable;
    assert IsBetweenWrapped(WrappingSub(0, 1), 1, 2);
    assert IsBetweenWrapped(0, 1, 2);
    var r1 := OnPacketSpec(c0, h1, []);
    var h2 := PeerAck(syn, syn.seqNo + 1, 2, false);
    assert Acceptability(r1.conn.recv, h2.seqNo, 0) == Acceptable;
    assert IsBetweenWrapped(1, 2, 3);
  }
}
