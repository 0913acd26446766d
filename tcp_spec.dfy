/**
 * The per-connection protocol engine of the user-space TCP endpoint, as pure
 * functions over a value that holds everything a `Connection` holds: the
 * state, the send and receive sequence spaces and the outgoing header
 * templates.  The `Connection` class in module TcpConnection performs the
 * same steps in place and is proved equal to these functions.
 */
module TcpSpec {
  import opened SeqSpace

  /** An IPv4 address as its four octets. */
  type Addr = s: seq<byte> | |s| == 4 witness [0, 0, 0, 0]

  /** The 4-byte link-layer prefix (flags, protocol) echoed on every frame. */
  type EthPrefix = s: seq<byte> | |s| == 4 witness [0, 0, 0, 0]

  /** Initial send sequence number: fixed. */
  const ISS: u32 := 0
  /** Window written into the outgoing header template and into SND.WND. */
  const WINDOW: u16 := 1024
  /** Time-to-live of the outgoing IPv4 header. */
  const TTL: nat := 64
  /** Size of the buffer a frame is assembled in. */
  const BUFFER_LEN: nat := 1500
  /** Length of an IPv4 header without options. */
  const IPV4_HEADER_LEN: nat := 20
  /** Length of a TCP header without options. */
  const TCP_HEADER_LEN: nat := 20
  /** Payload bytes that fit in the buffer after both headers. */
  const MAX_PAYLOAD: nat := BUFFER_LEN - IPV4_HEADER_LEN - TCP_HEADER_LEN

  datatype State = Closed | SynRcvd | Estab | FinWait1 | FinWait2 | TimeWait

  /** `State::is_syncronised`: only Estab is reported as synchronised. */
  function IsSynchronised(s: State): (r: bool)
    ensures r <==> s == Estab
  {
    match s
    case Estab => true
    case SynRcvd | Closed | FinWait1 | TimeWait | FinWait2 => false
  }

  /** Position of a state along the handshake and active close. */
  function Rank(s: State): nat
  {
    match s
    case Closed => 0
    case SynRcvd => 1
    case Estab => 2
    case FinWait1 => 3
    case FinWait2 => 4
    case TimeWait => 5
  }

  /** SND.UNA, SND.NXT, SND.WND and ISS. */
  datatype SendSpace = SendSpace(una: u32, nxt: u32, wnd: u16, iss: u32)

  /** RCV.NXT, RCV.WND and IRS. */
  datatype RecvSpace = RecvSpace(nxt: u32, wnd: u16, irs: u32)

  /** The fields of the outgoing IPv4 header this engine sets. */
  datatype IpTemplate = IpTemplate(source: Addr, destination: Addr, ttl: nat, payloadLen: nat)

  /** The fields of the outgoing TCP header this engine sets. */
  datatype TcpTemplate = TcpTemplate(
    sourcePort: u16, destinationPort: u16,
    seqNo: u32, ackNo: u32, window: u16,
    syn: bool, ack: bool, fin: bool, rst: bool)

  /** Everything a connection holds. */
  datatype Conn = Conn(
    state: State, send: SendSpace, recv: RecvSpace,
    ip: IpTemplate, tcp: TcpTemplate, eth: EthPrefix)

  /**
   * A frame handed to the device: the link prefix, both headers as they stood
   * when it was assembled, and the payload bytes written.  The checksum is not
   * part of the model.
   */
  datatype Segment = Segment(eth: EthPrefix, ip: IpTemplate, tcp: TcpTemplate, payload: seq<byte>)

  /** The parts of an inbound IPv4 header the engine reads. */
  datatype Ipv4View = Ipv4View(source: Addr, destination: Addr)

  /** The parts of an inbound TCP header the engine reads. */
  datatype TcpView = TcpView(
    sourcePort: u16, destinationPort: u16,
    seqNo: u32, ackNo: u32, window: u16,
    syn: bool, ack: bool, fin: bool)

  /** Why a Rust `panic!` ends the processing of a segment. */
  datatype PanicReason =
    | SequenceOverflow         // `sequence_number() + 1` overflows in accept
    | SegmentLengthOverflow    // `slen += 1` overflows
    | DataInSynchronisedState  // `assert!(data.is_empty())` fails
    | IssOverflow              // `send.iss + 2` overflows

  datatype Outcome = Done | Panic(reason: PanicReason)

  datatype Option<T> = None | Some(value: T)

  /** One sequence number for a control flag that is set. */
  function Flag(b: bool): nat
  {
    if b then 1 else 0
  }

  function Min(a: nat, b: nat): nat
  {
    if a <= b then a else b
  }

  /** SEG.LEN of an outgoing frame: its payload plus one for SYN and one for FIN. */
  function SeqLen(seg: Segment): nat
  {
    |seg.payload| + Flag(seg.tcp.syn) + Flag(seg.tcp.fin)
  }

  // ---------------------------------------------------------------------------
  // Outgoing-segment builder
  // ---------------------------------------------------------------------------

  /** The new connection value, the frame sent and the payload bytes written. */
  datatype Written = Written(conn: Conn, segment: Segment, payloadBytes: nat)

  /**
   * `Connection::write`: stamp the template with SND.NXT and RCV.NXT, fit the
   * payload into the 1500-byte buffer after both headers, send the frame and
   * move SND.NXT past every sequence number the frame consumed, clearing SYN
   * and FIN on the template so that each is counted once.
   */
  function WriteSpec(c: Conn, payload: seq<byte>): (w: Written)
    ensures w.payloadBytes == Min(|payload|, MAX_PAYLOAD)
    ensures w.segment.payload == payload[..w.payloadBytes]
    ensures w.segment.tcp == c.tcp.(seqNo := c.send.nxt, ackNo := c.recv.nxt)
    ensures w.segment.eth == c.eth
    ensures w.segment.ip == c.ip.(payloadLen := TCP_HEADER_LEN + |w.segment.payload|)
    ensures IPV4_HEADER_LEN + w.segment.ip.payloadLen <= BUFFER_LEN
    ensures w.conn.send.nxt == WrappingAdd(w.segment.tcp.seqNo, SeqLen(w.segment))
    ensures w.conn.send == c.send.(nxt := w.conn.send.nxt)
    ensures w.conn.tcp == w.segment.tcp.(syn := false, fin := false)
    ensures w.conn == c.(send := w.conn.send, ip := w.segment.ip, tcp := w.conn.tcp)
  {
    var tcp := c.tcp.(seqNo := c.send.nxt, ackNo := c.recv.nxt);
    var size := Min(BUFFER_LEN, TCP_HEADER_LEN + IPV4_HEADER_LEN + |payload|);
    var ip := c.ip.(payloadLen := size - IPV4_HEADER_LEN);
    var written := Min(|payload|, BUFFER_LEN - IPV4_HEADER_LEN - TCP_HEADER_LEN);
    var segment := Segment(c.eth, ip, tcp, payload[..written]);
    var nxt1 := WrappingAdd(c.send.nxt, written);
    var nxt2 := if tcp.syn then WrappingAdd(nxt1, 1) else nxt1;
    var nxt3 := if tcp.fin then WrappingAdd(nxt2, 1) else nxt2;
    WrappingAddTwice(c.send.nxt, written, Flag(tcp.syn));
    WrappingAddTwice(c.send.nxt, written + Flag(tcp.syn), Flag(tcp.fin));
    Written(c.(send := c.send.(nxt := nxt3), ip := ip, tcp := tcp.(syn := false, fin := false)), segment, written)
  }

  /**
   * `Connection::send_reset`: set RST and zero both numbers on the template,
   * then write an empty segment; the write stamps SND.NXT and RCV.NXT over the
   * zeros, and RST stays set on the template.
   */
  function ResetSpec(c: Conn): (w: Written)
    ensures w.segment.tcp.rst && w.conn.tcp.rst
    ensures w.segment.tcp.seqNo == c.send.nxt && w.segment.tcp.ackNo == c.recv.nxt
    ensures w.segment.payload == []
    ensures w.conn.state == c.state && w.conn.recv == c.recv
  {
    WriteSpec(c.(tcp := c.tcp.(rst := true, seqNo := 0, ackNo := 0)), [])
  }

  // ---------------------------------------------------------------------------
  // Connection setup
  // ---------------------------------------------------------------------------

  /**
   * How `accept` ends: a connection built from a SYN and the SYN+ACK it
   * sent, or a panic before anything was built.
   */
  datatype Setup =
    | Accepted(conn: Conn, synAck: Segment)
    | Panicked(reason: PanicReason)

  /**
   * `Connection::accept`: start in SynRcvd with ISS 0, learn IRS and the
   * window from the peer's SYN, address the templates back to the peer and
   * send SYN+ACK.  A panic when `sequence_number() + 1` overflows.
   */
  function AcceptSpec(iph: Ipv4View, tcph: TcpView, eth: EthPrefix): (r: Setup)
    ensures r.Panicked? <==> tcph.seqNo == MODULUS - 1
    ensures r.Panicked? ==> r.reason == SequenceOverflow
    ensures r.Accepted? ==>
      var c := r.conn;
      var s := r.synAck;
      && c.state == SynRcvd
      && c.recv == RecvSpace(tcph.seqNo + 1, tcph.window, tcph.seqNo)
      && c.send == SendSpace(0, 1, WINDOW, 0)
      && !c.tcp.syn && !c.tcp.fin && c.tcp.ack && !c.tcp.rst
      && s.tcp.syn && s.tcp.ack && !s.tcp.fin && !s.tcp.rst
      && s.tcp.seqNo == 0 && s.tcp.ackNo == tcph.seqNo + 1
      && s.tcp.window == WINDOW && s.payload == [] && s.eth == eth
      && s.tcp.sourcePort == tcph.destinationPort && s.tcp.destinationPort == tcph.sourcePort
      && s.ip.source == iph.destination && s.ip.destination == iph.source && s.ip.ttl == TTL
  {
    if tcph.seqNo + 1 >= MODULUS then
      Panicked(SequenceOverflow)
    else
      var c := Conn(
        SynRcvd,
        SendSpace(ISS, ISS, WINDOW, 0),
        RecvSpace(tcph.seqNo + 1, tcph.window, tcph.seqNo),
        IpTemplate(iph.destination, iph.source, TTL, 0),
        TcpTemplate(tcph.destinationPort, tcph.sourcePort, ISS, 0, WINDOW, false, false, false, false),
        eth);
      var w := WriteSpec(c.(tcp := c.tcp.(syn := true, ack := true)), []);
      Accepted(w.conn, w.segment)
  }

  // ---------------------------------------------------------------------------
  // Segment processing
  // ---------------------------------------------------------------------------

  /** The connection after a segment, the frames sent meanwhile, and whether it panicked. */
  datatype Step = Step(conn: Conn, out: seq<Segment>, outcome: Outcome)

  /**
   * SEG.LEN of an inbound segment: the data length cast to `u32` (truncated),
   * plus one for FIN and one for SYN, each added with an overflow check.
   */
  function SegmentLength(h: TcpView, dataLen: nat): (r: Option<u32>)
    ensures r.None? <==> dataLen % MODULUS + Flag(h.fin) + Flag(h.syn) >= MODULUS
    ensures dataLen + Flag(h.fin) + Flag(h.syn) < MODULUS ==> r == Some(dataLen + Flag(h.fin) + Flag(h.syn))
    ensures r.Some? ==> r.value == dataLen % MODULUS + Flag(h.fin) + Flag(h.syn)
  {
    var len := dataLen % MODULUS;
    if h.fin && len + 1 >= MODULUS then None
    else
      var len1 := if h.fin then len + 1 else len;
      if h.syn && len1 + 1 >= MODULUS then None
      else Some(if h.syn then len1 + 1 else len1)
  }

  /** What the acceptability test decides about an inbound segment. */
  datatype Verdict =
    | Ignore        // returned from silently
    | Unacceptable  // answered with an empty segment, nothing else
    | Acceptable

  /**
   * The acceptability test of section 3.3 of RFC 793 against the receive
   * window [RCV.NXT, RCV.NXT + RCV.WND), written with the strict comparator.
   */
  function Acceptability(recv: RecvSpace, seqNo: u32, slen: u32): (v: Verdict)
    ensures v == Ignore <==> slen == 0 && recv.wnd == 0 && seqNo != recv.nxt
    ensures v == Acceptable <==>
      if slen == 0 then
        if recv.wnd == 0 then seqNo == recv.nxt else Dist(recv.nxt, seqNo) < recv.wnd
      else
        recv.wnd > 0 &&
        (Dist(recv.nxt, seqNo) < recv.wnd || Dist(recv.nxt, WrappingAdd(seqNo, slen - 1)) < recv.wnd)
  {
    var before := WrappingSub(recv.nxt, 1);
    var windowEnd := WrappingAdd(recv.nxt, recv.wnd);
    if slen == 0 then
      if recv.wnd == 0 then
        if seqNo != recv.nxt then Ignore else Acceptable
      else
        ReceiveWindowTest(recv.nxt, recv.wnd, seqNo);
        if !IsBetweenWrapped(before, seqNo, windowEnd) then Unacceptable else Acceptable
    else if recv.wnd == 0 then
      Unacceptable
    else
      ReceiveWindowTest(recv.nxt, recv.wnd, seqNo);
      ReceiveWindowTest(recv.nxt, recv.wnd, WrappingAdd(seqNo, slen - 1));
      if !IsBetweenWrapped(before, seqNo, windowEnd)
        && !IsBetweenWrapped(before, WrappingAdd(seqNo, slen - 1), windowEnd)
      then Unacceptable
      else Acceptable
  }

  /** The states in which an inbound ACK may advance SND.UNA. */
  predicate AcksData(s: State)
  {
    s == Estab || s == FinWait1 || s == FinWait2
  }

  /** How the first part of `on_packet` ends: with a final step, or admitted to the ACK guards. */
  datatype Admission = Finished(step: Step) | Admitted(conn: Conn)

  /**
   * The first part of `on_packet`: compute SEG.LEN, run the acceptability
   * test, advance RCV.NXT to SEG.SEQ + SEG.LEN, and stop there unless the
   * segment carries ACK.
   */
  function Admit(c: Conn, h: TcpView, data: seq<byte>): (a: Admission)
    ensures a.Admitted? <==>
      && SegmentLength(h, |data|).Some?
      && Acceptability(c.recv, h.seqNo, SegmentLength(h, |data|).value) == Acceptable
      && h.ack
    ensures a.Admitted? ==>
      a.conn == c.(recv := c.recv.(nxt := WrappingAdd(h.seqNo, SegmentLength(h, |data|).value)))
    ensures a.Finished? && a.step.conn.recv != c.recv ==>
      && SegmentLength(h, |data|).Some?
      && Acceptability(c.recv, h.seqNo, SegmentLength(h, |data|).value) == Acceptable && !h.ack
      && a.step == Step(c.(recv := c.recv.(nxt := WrappingAdd(h.seqNo, SegmentLength(h, |data|).value))), [], Done)
  {
    match SegmentLength(h, |data|)
    case None => Finished(Step(c, [], Panic(SegmentLengthOverflow)))
    case Some(slen) =>
      match Acceptability(c.recv, h.seqNo, slen)
      case Ignore => Finished(Step(c, [], Done))
      case Unacceptable =>
        var w := WriteSpec(c, []);
        Finished(Step(w.conn, [w.segment], Done))
      case Acceptable =>
        var c1 := c.(recv := c.recv.(nxt := WrappingAdd(h.seqNo, slen)));
        if !h.ack then Finished(Step(c1, [], Done)) else Admitted(c1)
  }

  /**
   * `Connection::on_packet`: admit the segment, then apply the ACK guards and
   * the FIN guard in order.
   */
  function OnPacketSpec(c: Conn, h: TcpView, data: seq<byte>): (r: Step)
    ensures Rank(r.conn.state) >= Rank(c.state)
    ensures |r.out| <= 2
    ensures r.conn.send.iss == c.send.iss && r.conn.send.wnd == c.send.wnd
    ensures r.conn.recv.irs == c.recv.irs && r.conn.recv.wnd == c.recv.wnd
    ensures r.conn.eth == c.eth && r.conn.tcp.ack == c.tcp.ack && r.conn.tcp.rst == c.tcp.rst
  {
    match Admit(c, h, data)
    case Finished(step) => step
    case Admitted(c1) => AckPhase(c1, h, |data|)
  }

  /** The SynRcvd guard: SND.UNA =< SEG.ACK =< SND.NXT moves SynRcvd to Estab. */
  function SynRcvdGuard(c: Conn, ackNo: u32): (c': Conn)
    ensures c' == c || (c.state == SynRcvd && c' == c.(state := Estab))
  {
    if c.state == SynRcvd
      && IsBetweenWrapped(WrappingSub(c.send.una, 1), ackNo, WrappingAdd(c.send.nxt, 1))
    then c.(state := Estab)
    else c
  }

  /**
   * The SynRcvd guard, then the ACK guard of the states that acknowledge
   * data, which returns unless SND.UNA < SEG.ACK =< SND.NXT.
   */
  function AckPhase(c: Conn, h: TcpView, dataLen: nat): (r: Step)
    ensures Rank(r.conn.state) >= Rank(c.state)
    ensures |r.out| <= 2
    ensures r.conn.send.iss == c.send.iss && r.conn.send.wnd == c.send.wnd && r.conn.recv == c.recv
    ensures r.conn.eth == c.eth && r.conn.tcp.ack == c.tcp.ack && r.conn.tcp.rst == c.tcp.rst
  {
    var c1 := SynRcvdGuard(c, h.ackNo);
    if AcksData(c1.state) then
      if !IsBetweenWrapped(c1.send.una, h.ackNo, WrappingAdd(c1.send.nxt, 1)) then
        Step(c1, [], Done)
      else
        AckAccepted(c1, h, dataLen)
    else
      ClosePhase(c1, h, [])
  }

  /**
   * An acceptable ACK in Estab, FinWait1 or FinWait2: adopt it as SND.UNA,
   * panic if data came with it, and from Estab send FIN and enter FinWait1.
   */
  function AckAccepted(c: Conn, h: TcpView, dataLen: nat): (r: Step)
    requires AcksData(c.state)
    ensures Rank(r.conn.state) >= Rank(c.state)
    ensures |r.out| <= 2
    ensures r.conn.send.una == h.ackNo
    ensures r.conn.send.iss == c.send.iss && r.conn.send.wnd == c.send.wnd && r.conn.recv == c.recv
    ensures r.conn.eth == c.eth && r.conn.tcp.ack == c.tcp.ack && r.conn.tcp.rst == c.tcp.rst
  {
    var c2 := c.(send := c.send.(una := h.ackNo));
    if dataLen != 0 then
      Step(c2, [], Panic(DataInSynchronisedState))
    else if c2.state == Estab then
      var w := WriteSpec(c2.(tcp := c2.tcp.(fin := true)), []);
      ClosePhase(w.conn.(state := FinWait1), h, [w.segment])
    else
      ClosePhase(c2, h, [])
  }

  /** The FinWait1 guard, then the inbound-FIN guard; `out` are the frames sent so far. */
  function ClosePhase(c: Conn, h: TcpView, out: seq<Segment>): (r: Step)
    requires |out| <= 1
    ensures Rank(r.conn.state) >= Rank(c.state)
    ensures |out| <= |r.out| <= |out| + 1 && r.out[..|out|] == out
    ensures r.conn.send == c.send.(nxt := r.conn.send.nxt) && r.conn.recv == c.recv
    ensures r.conn.eth == c.eth && r.conn.tcp.ack == c.tcp.ack && r.conn.tcp.rst == c.tcp.rst
  {
    if c.state == FinWait1 && c.send.iss + 2 >= MODULUS then
      Step(c, out, Panic(IssOverflow))
    else
      var c1 := if c.state == FinWait1 && c.send.una == c.send.iss + 2 then c.(state := FinWait2) else c;
      if h.fin && c1.state == FinWait2 then
        var w := WriteSpec(c1, []);
        Step(w.conn.(state := TimeWait), out + [w.segment], Done)
      else
        Step(c1, out, Done)
  }
}
