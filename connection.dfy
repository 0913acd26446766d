/**
 * The connection object as the endpoint mutates it: a class whose fields are
 * the state, the two sequence spaces and the header templates, and a device
 * that records every frame handed to it.  Each method performs the source's
 * steps in order and is proved to leave the object, and the device, exactly
 * as the matching function of module TcpSpec says.
 */
module TcpConnection {
  import opened SeqSpace
  import opened TcpSpec

  /** The tun device, seen only through the frames it is asked to send. */
  class Nic {
    var sent: seq<Segment>

    constructor ()
      ensures sent == []
    {
      sent := [];
    }

    /** `nic.send(frame)`. */
    method Send(frame: Segment)
      modifies this
      ensures sent == old(sent) + [frame]
    {
      sent := sent + [frame];
    }
  }

  class Connection {
    var state: State
    var send: SendSpace
    var recv: RecvSpace
    var ip: IpTemplate
    var tcp: TcpTemplate
    var eth: EthPrefix

    /** The whole connection as a value. */
    function Snapshot(): Conn
      reads this
    {
      Conn(state, send, recv, ip, tcp, eth)
    }

    /** The struct literal of `accept`. */
    constructor (state: State, send: SendSpace, recv: RecvSpace, ip: IpTemplate, tcp: TcpTemplate, eth: EthPrefix)
      ensures Snapshot() == Conn(state, send, recv, ip, tcp, eth)
    {
      this.state := state;
      this.send := send;
      this.recv := recv;
      this.ip := ip;
      this.tcp := tcp;
      this.eth := eth;
    }

    /**
     * `Connection::accept`: build a connection in SynRcvd from the peer's SYN
     * and send SYN+ACK; no connection and a panic when the peer's sequence
     * number is 2^32 - 1.
     */
    static method Accept(nic: Nic, iph: Ipv4View, tcph: TcpView, eth: EthPrefix) returns (c: Connection?, outcome: Outcome)
      modifies nic
      ensures AcceptSpec(iph, tcph, eth).Panicked? ==>
        c == null && outcome == Panic(AcceptSpec(iph, tcph, eth).reason) && nic.sent == old(nic.sent)
      ensures AcceptSpec(iph, tcph, eth).Accepted? ==>
        && c != null && fresh(c) && outcome == Done
        && c.Snapshot() == AcceptSpec(iph, tcph, eth).conn
        && nic.sent == old(nic.sent) + [AcceptSpec(iph, tcph, eth).synAck]
    {
      if tcph.seqNo + 1 >= MODULUS {
        return null, Panic(SequenceOverflow);
      }
      var conn := new Connection(
        SynRcvd,
        SendSpace(ISS, ISS, WINDOW, 0),
        RecvSpace(tcph.seqNo + 1, tcph.window, tcph.seqNo),
        IpTemplate(iph.destination, iph.source, TTL, 0),
        TcpTemplate(tcph.destinationPort, tcph.sourcePort, ISS, 0, WINDOW, false, false, false, false),
        eth);
      conn.tcp := conn.tcp.(syn := true);
      conn.tcp := conn.tcp.(ack := true);
      var _ := conn.Write(nic, []);
      c, outcome := conn, Done;
    }

    /**
     * `Connection::write`: send one frame built from the templates and
     * `payload`, and account for the sequence numbers it consumed.
     */
    method Write(nic: Nic, payload: seq<byte>) returns (written: nat)
      modifies this, nic
      ensures Snapshot() == WriteSpec(old(Snapshot()), payload).conn
      ensures nic.sent == old(nic.sent) + [WriteSpec(old(Snapshot()), payload).segment]
      ensures written == WriteSpec(old(Snapshot()), payload).payloadBytes
    {
      tcp := tcp.(seqNo := send.nxt);
      tcp := tcp.(ackNo := recv.nxt);
      var size := Min(BUFFER_LEN, TCP_HEADER_LEN + IPV4_HEADER_LEN + |payload|);
      ip := ip.(payloadLen := size - IPV4_HEADER_LEN);
      written := Min(|payload|, BUFFER_LEN - IPV4_HEADER_LEN - TCP_HEADER_LEN);
      var frame := Segment(eth, ip, tcp, payload[..written]);

      send := send.(nxt := WrappingAdd(send.nxt, written));
      if tcp.syn {
        send := send.(nxt := WrappingAdd(send.nxt, 1));
        tcp := tcp.(syn := false);
      }
      if tcp.fin {
        send := send.(nxt := WrappingAdd(send.nxt, 1));
        tcp := tcp.(fin := false);
      }
      nic.Send(frame);
    }

    /** `Connection::send_reset`. */
    method SendReset(nic: Nic)
      modifies this, nic
      ensures Snapshot() == ResetSpec(old(Snapshot())).conn
      ensures nic.sent == old(nic.sent) + [ResetSpec(old(Snapshot())).segment]
    {
      tcp := tcp.(rst := true);
      tcp := tcp.(seqNo := 0);
      tcp := tcp.(ackNo := 0);
      var _ := Write(nic, []);
    }

    /**
     * `Connection::on_packet`: process one inbound segment with header `tcph`
     * and payload `data`.
     */
    method OnPacket(nic: Nic, tcph: TcpView, data: seq<byte>) returns (outcome: Outcome)
      modifies this, nic
      ensures Snapshot() == OnPacketSpec(old(Snapshot()), tcph, data).conn
      ensures nic.sent == old(nic.sent) + OnPacketSpec(old(Snapshot()), tcph, data).out
      ensures outcome == OnPacketSpec(old(Snapshot()), tcph, data).outcome
    {
      ghost var c0 := Snapshot();

      var seqn := tcph.seqNo;
      var len := |data| % MODULUS;
      if tcph.fin {
        if len + 1 >= MODULUS {
          return Panic(SegmentLengthOverflow);
        }
        len := len + 1;
      }
      if tcph.syn {
        if len + 1 >= MODULUS {
          return Panic(SegmentLengthOverflow);
        }
        len := len + 1;
      }
      var slen: u32 := len;
      assert SegmentLength(tcph, |data|) == Some(slen);
      var verdict := CheckAcceptability(seqn, slen);
      if verdict == Ignore {
        return Done;
      }
      if verdict == Unacceptable {
        var _ := Write(nic, []);
        return Done;
      }

      recv := recv.(nxt := WrappingAdd(seqn, slen));
      if !tcph.ack {
        return Done;
      }
      outcome := OnAck(nic, tcph, |data|);
    }

    /**
     * The acceptability chain of `on_packet`: the silent return for an empty
     * segment off RCV.NXT on a zero window, otherwise whether the segment
     * falls in the receive window.
     */
    method CheckAcceptability(seqn: u32, slen: u32) returns (verdict: Verdict)
      ensures verdict == Acceptability(recv, seqn, slen)
    {
      var wndLength := WrappingAdd(recv.nxt, recv.wnd);
      var okay: bool;
      if slen == 0 {
        if recv.wnd == 0 {
          if seqn != recv.nxt {
            return Ignore;
          } else {
            okay := true;
          }
        } else if !IsBetweenWrapped(WrappingSub(recv.nxt, 1), seqn, wndLength) {
          okay := false;
        } else {
          okay := true;
        }
      } else {
        if recv.wnd == 0 {
          okay := false;
        } else if !IsBetweenWrapped(WrappingSub(recv.nxt, 1), seqn, wndLength)
          && !IsBetweenWrapped(WrappingSub(recv.nxt, 1), WrappingAdd(seqn, slen - 1), wndLength)
        {
          okay := false;
        } else {
          okay := true;
        }
      }
      verdict := if okay then Acceptable else Unacceptable;
    }

    /**
     * The part of `on_packet` after an acceptable ACK-bearing segment has
     * advanced RCV.NXT: the SynRcvd guard and the ACK guard of the states that
     * acknowledge data.
     */
    method OnAck(nic: Nic, tcph: TcpView, dataLen: nat) returns (outcome: Outcome)
      modifies this, nic
      ensures Snapshot() == AckPhase(old(Snapshot()), tcph, dataLen).conn
      ensures nic.sent == old(nic.sent) + AckPhase(old(Snapshot()), tcph, dataLen).out
      ensures outcome == AckPhase(old(Snapshot()), tcph, dataLen).outcome
    {
      var ackn := tcph.ackNo;
      if state == SynRcvd {
        if IsBetweenWrapped(WrappingSub(send.una, 1), ackn, WrappingAdd(send.nxt, 1)) {
          state := Estab;
        }
      }

      if state == Estab || state == FinWait1 || state == FinWait2 {
        if !IsBetweenWrapped(send.una, ackn, WrappingAdd(send.nxt, 1)) {
          return Done;
        }
        outcome := OnAckAccepted(nic, tcph, dataLen);
        return;
      }
      outcome := OnClose(nic, tcph, []);
    }

    /** An acceptable ACK in Estab, FinWait1 or FinWait2. */
    method OnAckAccepted(nic: Nic, tcph: TcpView, dataLen: nat) returns (outcome: Outcome)
      requires AcksData(state)
      modifies this, nic
      ensures Snapshot() == AckAccepted(old(Snapshot()), tcph, dataLen).conn
      ensures nic.sent == old(nic.sent) + AckAccepted(old(Snapshot()), tcph, dataLen).out
      ensures outcome == AckAccepted(old(Snapshot()), tcph, dataLen).outcome
    {
      send := send.(una := tcph.ackNo);

      if dataLen != 0 {
        return Panic(DataInSynchronisedState);
      }

      ghost var out: seq<Segment> := [];
      if state == Estab {
        tcp := tcp.(fin := true);
        ghost var before := Snapshot();
        var _ := Write(nic, []);
        out := [WriteSpec(before, []).segment];
        state := FinWait1;
      }
      outcome := OnClose(nic, tcph, out);
    }

    /**
     * The last part of `on_packet`: the FinWait1 guard, then the guard on an
     * inbound FIN; `out` are the frames this segment has caused so far.
     */
    method OnClose(nic: Nic, tcph: TcpView, ghost out: seq<Segment>) returns (outcome: Outcome)
      requires |out| <= 1
      modifies this, nic
      ensures Snapshot() == ClosePhase(old(Snapshot()), tcph, out).conn
      ensures nic.sent == old(nic.sent) + ClosePhase(old(Snapshot()), tcph, out).out[|out|..]
      ensures outcome == ClosePhase(old(Snapshot()), tcph, out).outcome
    {
      if state == FinWait1 {
        if send.iss + 2 >= MODULUS {
          return Panic(IssOverflow);
        }
        if send.una == send.iss + 2 {
          state := FinWait2;
        }
      }

      if tcph.fin {
        match state {
          case FinWait2 =>
            var _ := Write(nic, []);
            state := TimeWait;
          case Closed | Estab | FinWait1 | SynRcvd | TimeWait =>
        }
      }
      outcome := Done;
    }
  }
}
