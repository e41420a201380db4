/** The TCP engine of stack/tcp.go as a function from connection values to connection values.
    Every step of the class in Socket.dfy is proved equal to a function of this module. */
module Tcp {
  import opened Words
  import opened Rings

  const MAX_SEG := 1460
  const MTU := 1500
  const IP_HEADER := 20
  const TCP_HEADER := 20
  const SYN_HEADER := 24
  /** Milliseconds. */
  const RETX_TIMEOUT := 1000
  const TIME_WAIT := 2000
  const MAX_RETX := 8

  datatype SockState = Free | Bound | Listening | Connecting | Connected | Closing | Closed

  datatype TcpState =
    | NoTcp
    | SynSent
    | SynReceived
    | Established
    | FinWait1
    | FinWait2
    | CloseWait
    | LastAck
    | TimeWait

  datatype Flags = Flags(fin: bool, syn: bool, rst: bool, psh: bool, ack: bool)

  const ACK := Flags(false, false, false, false, true)
  const SYN := Flags(false, true, false, false, false)
  const SYN_ACK := Flags(false, true, false, false, true)
  const FIN_ACK := Flags(true, false, false, false, true)

  type Payload = s: seq<byte> | |s| <= 0xFFFF

  datatype Segment = Segment(seqNum: u32, ackNum: u32, flags: Flags, window: u16, mss: u16, data: Payload)

  /** A time.Time: the zero value never fires the retransmission timer. */
  datatype Time = Unset | At(ms: int)

  /** One socket. The last five fields are history: the bytes ever taken into the receive ring, handed
      to the application, written by it and dropped as acknowledged, and the segments sent. */
  datatype Conn = Conn(
    sock: SockState, tcp: TcpState,
    seqNum: u32, ackNum: u32, sndUna: u32, remoteWin: u16, mss: u16,
    retx: Time, retxCount: nat, finSent: bool, finAcked: bool, finRecvd: bool,
    rx: seq<byte>, tx: seq<byte>,
    accepted: seq<byte>, taken: seq<byte>, written: seq<byte>, dropped: seq<byte>, sent: seq<Segment>)

  /** A socket after reset; what it sent before stays on the wire. */
  function Blank(sent: seq<Segment>): Conn {
    Conn(Free, NoTcp, 0, 0, 0, 0, 0, Unset, 0, false, false, false, [], [], [], [], [], [], sent)
  }

  /** Rings within bounds, and no byte lost between history and ring. */
  ghost predicate Sound(c: Conn) {
    && |c.rx| <= SIZE && |c.tx| <= SIZE
    && c.taken + c.rx == c.accepted
    && c.dropped + c.tx == c.written
  }

  function Sub32(x: u32, y: u32): u32 {
    if x >= y then x - y else x - y + TWO32
  }

  function Bit(b: bool): nat {
    if b then 1 else 0
  }

  // ---------------------------------------------------------------- sending

  function SendTcp(c: Conn, f: Flags, data: Payload): Conn
    requires |c.rx| <= SIZE
  {
    c.(sent := c.sent + [Segment(c.seqNum, c.ackNum, f, SIZE - |c.rx|, MAX_SEG, data)],
       seqNum := Add32(c.seqNum, |data| + Bit(f.syn) + Bit(f.fin)))
  }

  /** up says whether the next hop's hardware address is known; without it nothing is sent. */
  function SendFlags(c: Conn, f: Flags, up: bool): Conn
    requires |c.rx| <= SIZE
  {
    if up then SendTcp(c, f, []) else c
  }

  function MaxSend(c: Conn, hdrLen: nat): nat
    requires hdrLen <= SYN_HEADER
  {
    Min(Min(c.remoteWin, c.mss), MTU - IP_HEADER - hdrLen)
  }

  function OutputFlags(c: Conn): Flags {
    match c.tcp
    case SynSent => SYN
    case FinWait1 => FIN_ACK
    case LastAck => FIN_ACK
    case _ => ACK
  }

  function OutputData(c: Conn): (s: Payload)
    ensures |s| <= |c.tx|
  {
    if c.tcp == Established || c.tcp == CloseWait
    then c.tx[..Min(MaxSend(c, TCP_HEADER), |c.tx|)]
    else []
  }

  /** Sends one segment and arms the timer if something is now outstanding. */
  function Emit(c: Conn, f: Flags, data: Payload, now: int): Conn
    requires |c.rx| <= SIZE
  {
    var d := SendTcp(c, f, data);
    if (|data| > 0 || f.syn || f.fin) && d.retx == Unset then d.(retx := At(now + RETX_TIMEOUT)) else d
  }

  function Output(c: Conn, now: int, up: bool): Conn
    requires |c.rx| <= SIZE
  {
    var f := OutputFlags(c);
    var c1 := if f.fin then c.(finSent := true) else c;
    if !up then c1 else
    var data := OutputData(c1);
    Emit(c1, if |data| > 0 then f.(psh := true) else f, data, now)
  }

  // ---------------------------------------------------------------- receiving

  function ProcessAck(c: Conn, ackNum: u32, now: int): Conn {
    var acked := AsInt(Sub32(ackNum, c.sndUna));
    if 0 < acked <= |c.tx| then
      c.(tx := c.tx[acked..], dropped := c.dropped + c.tx[..acked], sndUna := ackNum, retxCount := 0,
         retx := if acked < |c.tx| then At(now + RETX_TIMEOUT) else Unset)
    else c
  }

  function Accept(c: Conn, data: Payload): Conn
    requires |c.rx| <= SIZE
  {
    var n := Min(|data|, SIZE - |c.rx|);
    c.(rx := c.rx + data[..n], accepted := c.accepted + data[..n], ackNum := Add32(c.ackNum, n))
  }

  function Abort(c: Conn): Conn {
    c.(tcp := NoTcp, sock := Closed)
  }

  function InSynSent(c: Conn, s: Segment, up: bool): Conn
    requires |c.rx| <= SIZE
  {
    if s.flags.syn && s.flags.ack then
      SendFlags(c.(ackNum := Add32(s.seqNum, 1), seqNum := s.ackNum, sndUna := s.ackNum,
                   remoteWin := s.window, mss := s.mss,
                   tcp := Established, sock := Connected, retx := Unset), ACK, up)
    else if s.flags.rst then Abort(c)
    else c
  }

  function TakeAck(c: Conn, s: Segment, now: int): Conn {
    if s.flags.ack then ProcessAck(c, s.ackNum, now).(remoteWin := s.window) else c
  }

  function TakeData(c: Conn, s: Segment, up: bool): Conn
    requires |c.rx| <= SIZE
  {
    if |s.data| > 0 && s.seqNum == c.ackNum then SendFlags(Accept(c, s.data), ACK, up) else c
  }

  function TakeFin(c: Conn, s: Segment, up: bool): Conn
    requires |c.rx| <= SIZE
  {
    if s.flags.fin && Add32(s.seqNum, |s.data|) == c.ackNum then
      SendFlags(c.(ackNum := Add32(c.ackNum, 1), finRecvd := true, tcp := CloseWait), ACK, up)
    else c
  }

  function InEstablished(c: Conn, s: Segment, now: int, up: bool): Conn
    requires |c.rx| <= SIZE
  {
    var c1 := TakeAck(c, s, now);
    var c2 := TakeData(c1, s, up);
    var c3 := TakeFin(c2, s, up);
    if s.flags.rst then Abort(c3) else c3
  }

  function EnterTimeWait(c: Conn, s: Segment, up: bool): Conn
    requires |c.rx| <= SIZE
  {
    SendFlags(c.(ackNum := Add32(s.seqNum, 1), tcp := TimeWait), ACK, up)
  }

  function InFinWait1(c: Conn, s: Segment, now: int, up: bool): Conn
    requires |c.rx| <= SIZE
  {
    var c1 := if s.flags.ack then ProcessAck(c, s.ackNum, now) else c;
    var c2 := if s.flags.ack && c1.finSent && s.ackNum == c1.seqNum then
                var d := c1.(finAcked := true);
                if s.flags.fin then EnterTimeWait(d, s, up) else d.(tcp := FinWait2)
              else c1;
    if s.flags.fin && !c2.finAcked && s.seqNum == c2.ackNum then EnterTimeWait(c2, s, up) else c2
  }

  function InFinWait2(c: Conn, s: Segment, now: int, up: bool): Conn
    requires |c.rx| <= SIZE
  {
    if s.flags.fin && s.seqNum == c.ackNum
    then EnterTimeWait(c.(retx := At(now + TIME_WAIT)), s, up)
    else c
  }

  function InSynReceived(c: Conn, s: Segment): Conn {
    var c1 := if s.flags.ack then c.(tcp := Established, sock := Connected) else c;
    if s.flags.rst then Abort(c1) else c1
  }

  function Input(c: Conn, s: Segment, now: int, up: bool): Conn
    requires |c.rx| <= SIZE
  {
    match c.tcp
    case NoTcp => c
    case SynSent => InSynSent(c, s, up)
    case SynReceived => InSynReceived(c, s)
    case Established => InEstablished(c, s, now, up)
    case FinWait1 => InFinWait1(c, s, now, up)
    case FinWait2 => InFinWait2(c, s, now, up)
    case CloseWait => if s.flags.ack then ProcessAck(c, s.ackNum, now) else c
    case LastAck => if s.flags.ack then Abort(c) else c
    case TimeWait => c
  }

  // ---------------------------------------------------------------- timer

  function Retransmits(c: Conn, now: int): bool {
    && c.tcp != NoTcp
    && c.retx.At? && now > c.retx.ms
    && c.tcp != TimeWait
    && c.retxCount < MAX_RETX
  }

  function Rewind(c: Conn, now: int): Conn {
    c.(retxCount := c.retxCount + 1,
       retx := At(now + RETX_TIMEOUT * Pow2(c.retxCount + 1)),
       seqNum := c.sndUna)
  }

  function Tick(c: Conn, now: int, up: bool): Conn
    requires |c.rx| <= SIZE
  {
    if c.tcp == NoTcp then c
    else if c.tcp == TimeWait && (c.retx == Unset || now > c.retx.ms) then Abort(c)
    else if c.retx.At? && now > c.retx.ms then
      if c.retxCount >= MAX_RETX then Abort(c) else Output(Rewind(c, now), now, up)
    else c
  }

  // ---------------------------------------------------------------- the application side

  function Written(c: Conn, data: seq<byte>): (n: nat)
    requires |c.tx| <= SIZE
    ensures n <= |data| && |c.tx| + n <= SIZE
  {
    Min(|data|, SIZE - |c.tx|)
  }

  /** What fits goes into the ring. */
  function Extended(c: Conn, data: seq<byte>): (d: Conn)
    requires |c.tx| <= SIZE
    ensures |d.tx| <= SIZE
  {
    var n := Written(c, data);
    c.(tx := c.tx + data[..n], written := c.written + data[..n])
  }

  /** One round of Send: what fits goes into the ring, then output runs. */
  function Write(c: Conn, data: seq<byte>, now: int, up: bool): Conn
    requires |c.rx| <= SIZE && |c.tx| <= SIZE
  {
    Output(Extended(c, data), now, up)
  }

  function Read(c: Conn, max: nat): Conn {
    var n := Min(max, |c.rx|);
    c.(rx := c.rx[n..], taken := c.taken + c.rx[..n])
  }

  function CloseTo(c: Conn, state: TcpState, up: bool): Conn
    requires |c.rx| <= SIZE
  {
    SendFlags(c.(tcp := state, sock := Closing), FIN_ACK, up).(finSent := true)
  }

  function Close(c: Conn, up: bool): Conn
    requires |c.rx| <= SIZE
  {
    if c.tcp == Established || c.tcp == CloseWait then
      CloseTo(c, if c.tcp == Established then FinWait1 else LastAck, up)
    else Blank(c.sent)
  }

  function Connect(c: Conn, isn: u32, now: int, up: bool): Conn
    requires |c.rx| <= SIZE
  {
    SendFlags(c.(sock := Connecting, tcp := SynSent, seqNum := isn, sndUna := isn, ackNum := 0), SYN, up)
      .(retx := At(now + RETX_TIMEOUT))
  }

  /** The socket created for a SYN on a listening port. */
  function Spawn(sent: seq<Segment>, irs: u32, isn: u32, mss: u16, up: bool): Conn {
    SendFlags(Blank(sent).(sock := Connecting, tcp := SynReceived, ackNum := Add32(irs, 1),
                           seqNum := isn, sndUna := isn, remoteWin := MAX_SEG, mss := mss), SYN_ACK, up)
  }

  // ---------------------------------------------------------------- runs

  datatype Event =
    | Arrive(seg: Segment, now: int, up: bool)
    | Timer(now: int, up: bool)
    | Send(data: seq<byte>, now: int, up: bool)
    | Nudge(now: int, up: bool)
    | Recv(max: nat)
    | Shut(up: bool)

  /** One step of a connection: a segment from the network, a poll of the timer, a round of Send (Nudge:
      one that only waits for room), a read, or Close. */
  function Step(c: Conn, e: Event): Conn
    requires |c.rx| <= SIZE && |c.tx| <= SIZE
  {
    match e
    case Arrive(seg, now, up) => Input(c, seg, now, up)
    case Timer(now, up) => Tick(c, now, up)
    case Send(data, now, up) => Write(c, data, now, up)
    case Nudge(now, up) => Output(c, now, up)
    case Recv(max) => Read(c, max)
    case Shut(up) => Close(c, up)
  }

  lemma AckSound(c: Conn, ackNum: u32, now: int)
    requires Sound(c)
    ensures Sound(ProcessAck(c, ackNum, now))
  {
    var acked := AsInt(Sub32(ackNum, c.sndUna));
    if 0 < acked <= |c.tx| {
      assert (c.dropped + c.tx[..acked]) + c.tx[acked..] == c.dropped + c.tx;
    }
  }

  lemma AcceptSound(c: Conn, data: Payload)
    requires Sound(c)
    ensures Sound(Accept(c, data))
  {
    var n := Min(|data|, SIZE - |c.rx|);
    assert c.taken + (c.rx + data[..n]) == (c.taken + c.rx) + data[..n];
  }

  lemma EstablishedSound(c: Conn, seg: Segment, now: int, up: bool)
    requires Sound(c)
    ensures Sound(InEstablished(c, seg, now, up))
  {
    AckSound(c, seg.ackNum, now);
    var c1 := TakeAck(c, seg, now);
    AcceptSound(c1, seg.data);
    var c2 := TakeData(c1, seg, up);
    assert Sound(c2);
    assert Sound(TakeFin(c2, seg, up));
  }

  lemma FinWait1Sound(c: Conn, seg: Segment, now: int, up: bool)
    requires Sound(c)
    ensures Sound(InFinWait1(c, seg, now, up))
  {
    AckSound(c, seg.ackNum, now);
  }

  lemma InputSound(c: Conn, seg: Segment, now: int, up: bool)
    requires Sound(c)
    ensures Sound(Input(c, seg, now, up))
  {
    hide InEstablished, InFinWait1, ProcessAck;
    match c.tcp {
      case Established => EstablishedSound(c, seg, now, up);
      case FinWait1 => FinWait1Sound(c, seg, now, up);
      case CloseWait => AckSound(c, seg.ackNum, now);
      case _ =>
    }
  }

  /** Output touches the numbers and the timer of the sending side and what was sent, nothing else. */
  lemma OutputFrame(c: Conn, now: int, up: bool)
    requires |c.rx| <= SIZE
    ensures var d := Output(c, now, up);
            d == c.(seqNum := d.seqNum, sent := d.sent, retx := d.retx, finSent := d.finSent)
  {
  }

  lemma OutputSound(c: Conn, now: int, up: bool)
    requires Sound(c)
    ensures Sound(Output(c, now, up))
  {
  }

  lemma TickSound(c: Conn, now: int, up: bool)
    requires Sound(c)
    ensures Sound(Tick(c, now, up))
  {
    OutputSound(Rewind(c, now), now, up);
  }

  lemma WriteSound(c: Conn, data: seq<byte>, now: int, up: bool)
    requires Sound(c)
    ensures Sound(Write(c, data, now, up))
  {
    var d := Extended(c, data);
    assert d.dropped + d.tx == d.written;
    OutputSound(d, now, up);
  }

  lemma ReadSound(c: Conn, max: nat)
    requires Sound(c)
    ensures Sound(Read(c, max))
  {
    var n := Min(max, |c.rx|);
    assert (c.taken + c.rx[..n]) + c.rx[n..] == c.taken + c.rx;
  }

  /** No step loses a byte between ring and history. */
  lemma StepSound(c: Conn, e: Event)
    requires Sound(c)
    ensures Sound(Step(c, e))
  {
    hide Input, Tick, Write, Output, Read;
    match e {
      case Arrive(seg, now, up) => InputSound(c, seg, now, up);
      case Timer(now, up) => TickSound(c, now, up);
      case Send(data, now, up) => WriteSound(c, data, now, up);
      case Nudge(now, up) => OutputSound(c, now, up);
      case Recv(max) => ReadSound(c, max);
      case Shut(up) =>
    }
  }

  /** The state after the events es. */
  ghost function Run(c: Conn, es: seq<Event>): (d: Conn)
    requires Sound(c)
    ensures Sound(d)
    decreases |es|
  {
    if es == [] then c else (StepSound(c, es[0]); Run(Step(c, es[0]), es[1..]))
  }

  lemma {:induction false} RunAppend(c: Conn, es: seq<Event>, e: Event)
    requires Sound(c)
    ensures Run(c, es + [e]) == Step(Run(c, es), e)
    decreases |es|
  {
    if es != [] {
      StepSound(c, es[0]);
      RunAppend(Step(c, es[0]), es[1..], e);
      assert (es + [e])[1..] == es[1..] + [e];
    } else {
      assert ([e])[1..] == [];
    }
  }
}
