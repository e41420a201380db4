/** In-order, exactly-once receive: whatever the network loses, duplicates or reorders, the bytes a
    connection accepts are a prefix of the peer's stream (section 3.4 of RFC 9293). */
module TcpReceive {
  import opened Words
  import opened Rings
  import opened Tcp

  /** The sequence number of stream byte n; byte 0 follows the peer's SYN. */
  function SeqAt(irs: u32, n: nat): u32 {
    (irs + 1 + n) % TWO32
  }

  /** A segment of the peer: its SYN, or the stream bytes from an offset on. */
  datatype PeerSegment =
    | PeerSyn(ackNum: u32, ack: bool, rst: bool, window: u16, mss: u16)
    | PeerText(offset: nat, data: Payload, ackNum: u32, flags: Flags, window: u16, mss: u16)

  /** The peer's segments carry one byte stream; a FIN closes it, and a pure acknowledgment may follow. */
  ghost predicate Agrees(p: PeerSegment, stream: seq<byte>) {
    p.PeerText? ==>
      && !p.flags.syn
      && (p.offset + |p.data| <= |stream| || (p.offset == |stream| + 1 && p.data == [] && !p.flags.fin))
      && (p.offset <= |stream| ==> p.data == stream[p.offset..p.offset + |p.data|])
      && (p.flags.fin ==> p.offset + |p.data| == |stream|)
  }

  /** Less than one turn of the sequence space away from the receive point. */
  ghost predicate Recent(p: PeerSegment, n: nat) {
    p.PeerText? ==> n < p.offset + TWO32 && p.offset + |p.data| < n + TWO32
  }

  function OnWire(p: PeerSegment, irs: u32): Segment {
    match p
    case PeerSyn(ackNum, ack, rst, window, mss) =>
      Segment(irs, ackNum, Flags(false, true, rst, false, ack), window, mss, [])
    case PeerText(offset, data, ackNum, flags, window, mss) =>
      Segment(SeqAt(irs, offset), ackNum, flags, window, mss, data)
  }

  datatype Happening =
    | FromPeer(p: PeerSegment, now: int, up: bool)
    | Local(e: Event)

  function AsEvent(x: Happening, irs: u32): Event {
    match x
    case FromPeer(p, now, up) => Arrive(OnWire(p, irs), now, up)
    case Local(e) => e
  }

  function Events(xs: seq<Happening>, irs: u32): (es: seq<Event>)
    ensures |es| == |xs|
  {
    if xs == [] then [] else [AsEvent(xs[0], irs)] + Events(xs[1..], irs)
  }

  ghost predicate HonestStep(c: Conn, x: Happening, stream: seq<byte>) {
    match x
    case FromPeer(p, _, _) => Agrees(p, stream) && Recent(p, |c.accepted|)
    case Local(e) => !e.Arrive?
  }

  /** Every segment delivered in the run is one the peer could have sent, delivered any number of times. */
  ghost predicate Honest(c: Conn, xs: seq<Happening>, irs: u32, stream: seq<byte>)
    requires Sound(c)
    decreases |xs|
  {
    xs == [] || (
      && HonestStep(c, xs[0], stream)
      && (StepSound(c, AsEvent(xs[0], irs)); Honest(Step(c, AsEvent(xs[0], irs)), xs[1..], irs, stream)))
  }

  /** What the connection knows of the stream in each state. */
  ghost predicate InStep(c: Conn, irs: u32, stream: seq<byte>) {
    && c.accepted <= stream
    && (c.tcp == SynSent ==> c.accepted == [] && !c.finRecvd)
    && (c.tcp == SynReceived || c.tcp == Established ==>
          !c.finRecvd && c.ackNum == SeqAt(irs, |c.accepted|))
    && (c.tcp == CloseWait || c.tcp == LastAck ==>
          c.finRecvd && c.accepted == stream && c.ackNum == SeqAt(irs, |stream| + 1))
  }

  lemma SeqInjective(irs: u32, m: nat, n: nat)
    requires SeqAt(irs, m) == SeqAt(irs, n) && m < n + TWO32 && n < m + TWO32
    ensures m == n
  {
  }

  lemma SeqAdvance(irs: u32, m: nat, k: u32)
    ensures Add32(SeqAt(irs, m), k) == SeqAt(irs, m + k)
  {
  }

  /** Sending touches nothing the receive side looks at. */
  ghost predicate SameReceive(c: Conn, d: Conn) {
    && d.tcp == c.tcp && d.ackNum == c.ackNum && d.finRecvd == c.finRecvd
    && d.rx == c.rx && d.accepted == c.accepted
  }

  lemma AckSame(c: Conn, s: Segment, now: int)
    ensures SameReceive(c, ProcessAck(c, s.ackNum, now))
    ensures SameReceive(c, TakeAck(c, s, now))
  {
  }

  /** A segment's data is accepted only at the receive point, and then extends the prefix. */
  lemma TakeDataInStep(c: Conn, p: PeerSegment, irs: u32, stream: seq<byte>, up: bool)
    requires Sound(c) && c.tcp == Established && InStep(c, irs, stream)
    requires Agrees(p, stream) && Recent(p, |c.accepted|)
    ensures var d := TakeData(c, OnWire(p, irs), up);
            && InStep(d, irs, stream) && d.tcp == Established && |d.rx| <= SIZE
            && (p.PeerText? ==> |c.accepted| <= |d.accepted| <= |c.accepted| + |p.data|)
  {
    var s := OnWire(p, irs);
    if |s.data| > 0 && s.seqNum == c.ackNum {
      SeqInjective(irs, p.offset, |c.accepted|);
      var n := Min(|s.data|, SIZE - |c.rx|);
      var k := |c.accepted|;
      assert c.accepted == stream[..k] && s.data[..n] == stream[k..k + n];
      assert c.accepted + s.data[..n] == stream[..k + n];
      SeqAdvance(irs, |c.accepted|, n);
    }
  }

  lemma TakeFinInStep(c: Conn, n: nat, p: PeerSegment, irs: u32, stream: seq<byte>, up: bool)
    requires |c.rx| <= SIZE && c.tcp == Established && InStep(c, irs, stream)
    requires Agrees(p, stream) && Recent(p, n) && n <= |c.accepted|
    requires p.PeerText? ==> |c.accepted| <= n + |p.data|
    ensures InStep(TakeFin(c, OnWire(p, irs), up), irs, stream)
  {
    var s := OnWire(p, irs);
    if s.flags.fin {
      SeqAdvance(irs, p.offset, |p.data|);
      if Add32(s.seqNum, |s.data|) == c.ackNum {
        SeqInjective(irs, p.offset + |p.data|, |c.accepted|);
        SeqAdvance(irs, |c.accepted|, 1);
      }
    }
  }

  lemma EstablishedInStep(c: Conn, p: PeerSegment, irs: u32, stream: seq<byte>, now: int, up: bool)
    requires Sound(c) && c.tcp == Established && InStep(c, irs, stream)
    requires Agrees(p, stream) && Recent(p, |c.accepted|)
    ensures InStep(InEstablished(c, OnWire(p, irs), now, up), irs, stream)
  {
    var s := OnWire(p, irs);
    var c1 := TakeAck(c, s, now);
    AckSame(c, s, now);
    AckSound(c, s.ackNum, now);
    TakeDataInStep(c1, p, irs, stream, up);
    var c2 := TakeData(c1, s, up);
    TakeFinInStep(c2, |c.accepted|, p, irs, stream, up);
  }

  lemma FinWait1InStep(c: Conn, s: Segment, irs: u32, stream: seq<byte>, now: int, up: bool)
    requires Sound(c) && c.tcp == FinWait1 && InStep(c, irs, stream)
    ensures InStep(InFinWait1(c, s, now, up), irs, stream)
  {
    hide ProcessAck, SeqAt;
    AckSame(c, s, now);
  }

  lemma ArriveInStep(c: Conn, p: PeerSegment, irs: u32, stream: seq<byte>, now: int, up: bool)
    requires Sound(c) && InStep(c, irs, stream)
    requires Agrees(p, stream) && Recent(p, |c.accepted|)
    ensures InStep(Input(c, OnWire(p, irs), now, up), irs, stream)
  {
    hide InEstablished, InFinWait1, ProcessAck;
    var s := OnWire(p, irs);
    match c.tcp {
      case SynSent => SeqAdvance(irs, 0, 0);
      case Established => EstablishedInStep(c, p, irs, stream, now, up);
      case FinWait1 => FinWait1InStep(c, s, irs, stream, now, up);
      case CloseWait => AckSame(c, s, now);
      case _ =>
    }
  }

  lemma LocalInStep(c: Conn, e: Event, irs: u32, stream: seq<byte>)
    requires Sound(c) && InStep(c, irs, stream) && !e.Arrive?
    ensures InStep(Step(c, e), irs, stream)
  {
    hide Tick, Write, Output, Close, SeqAt;
    match e {
      case Timer(now, up) => TimerInStep(c, now, up, irs, stream);
      case Send(data, now, up) => SendInStep(c, data, now, up, irs, stream);
      case Nudge(now, up) => OutputFrame(c, now, up);
      case Recv(max) =>
      case Shut(up) => ShutInStep(c, up, irs, stream);
    }
  }

  lemma TimerInStep(c: Conn, now: int, up: bool, irs: u32, stream: seq<byte>)
    requires Sound(c) && InStep(c, irs, stream)
    ensures InStep(Tick(c, now, up), irs, stream)
  {
    hide Output, SeqAt;
    OutputFrame(Rewind(c, now), now, up);
  }

  lemma SendInStep(c: Conn, data: seq<byte>, now: int, up: bool, irs: u32, stream: seq<byte>)
    requires Sound(c) && InStep(c, irs, stream)
    ensures InStep(Write(c, data, now, up), irs, stream)
  {
    hide Output, SeqAt;
    var d := Extended(c, data);
    assert d.dropped + d.tx == d.written;
    OutputFrame(d, now, up);
  }

  lemma ShutInStep(c: Conn, up: bool, irs: u32, stream: seq<byte>)
    requires Sound(c) && InStep(c, irs, stream)
    ensures InStep(Close(c, up), irs, stream)
  {
    hide SeqAt;
  }

  lemma {:induction false} RunInStep(c: Conn, xs: seq<Happening>, irs: u32, stream: seq<byte>)
    requires Sound(c) && InStep(c, irs, stream) && Honest(c, xs, irs, stream)
    ensures InStep(Run(c, Events(xs, irs)), irs, stream)
    decreases |xs|
  {
    if xs == [] {
    } else {
      var e := AsEvent(xs[0], irs);
      StepSound(c, e);
      match xs[0] {
        case FromPeer(p, now, up) => ArriveInStep(c, p, irs, stream, now, up);
        case Local(_) => LocalInStep(c, e, irs, stream);
      }
      RunInStep(Step(c, e), xs[1..], irs, stream);
      assert Events(xs, irs)[1..] == Events(xs[1..], irs);
    }
  }

  /** A socket on which Connect may be called for the first time. */
  function Bare(sent: seq<Segment>): Conn {
    Blank(sent).(sock := Bound, mss := MAX_SEG)
  }

  /** In-order, exactly-once receive over every honest run of a connection opened either way. */
  lemma ReceiveInOrder(c0: Conn, xs: seq<Happening>, irs: u32, stream: seq<byte>,
                       sent: seq<Segment>, isn: u32, mss: u16, now: int, up: bool)
    requires c0 == Connect(Bare(sent), isn, now, up) || c0 == Spawn(sent, irs, isn, mss, up)
    requires Sound(c0) && Honest(c0, xs, irs, stream)
    ensures var c := Run(c0, Events(xs, irs));
            && c.accepted <= stream
            && c.taken + c.rx == c.accepted
            && (c.tcp == Established ==> c.ackNum == SeqAt(irs, |c.accepted|))
            && (c.tcp == CloseWait ==> c.accepted == stream && c.ackNum == SeqAt(irs, |stream| + 1))
  {
    hide Connect, Spawn, Run, Honest, SeqAt;
    OpeningInStep(c0, irs, stream, sent, isn, mss, now, up);
    RunInStep(c0, xs, irs, stream);
  }

  lemma OpeningInStep(c0: Conn, irs: u32, stream: seq<byte>,
                      sent: seq<Segment>, isn: u32, mss: u16, now: int, up: bool)
    requires c0 == Connect(Bare(sent), isn, now, up) || c0 == Spawn(sent, irs, isn, mss, up)
    ensures InStep(c0, irs, stream)
  {
    SeqAdvance(irs, 0, 0);
  }

  /** The receive test exactly: with room in the ring, text at an offset is accepted if and only if the
      offset is the number of bytes accepted so far modulo 2^32. A segment a whole turn old passes. */
  lemma AcceptedExactly(c: Conn, p: PeerSegment, irs: u32, up: bool)
    requires Sound(c) && c.ackNum == SeqAt(irs, |c.accepted|) && |c.rx| < SIZE
    requires p.PeerText? && |p.data| > 0
    ensures var d := TakeData(c, OnWire(p, irs), up);
            && (d.accepted != c.accepted <==> (p.offset - |c.accepted|) % TWO32 == 0)
            && (Recent(p, |c.accepted|) ==> (d.accepted != c.accepted <==> p.offset == |c.accepted|))
            && (d.accepted == c.accepted || d.accepted == c.accepted + p.data[..Min(|p.data|, SIZE - |c.rx|)])
  {
    var s := OnWire(p, irs);
    SeqEqual(irs, p.offset, |c.accepted|);
    if s.seqNum == c.ackNum {
      var n := Min(|p.data|, SIZE - |c.rx|);
      assert |c.accepted + p.data[..n]| > |c.accepted|;
    }
  }

  lemma SeqEqual(irs: u32, m: nat, n: nat)
    ensures SeqAt(irs, m) == SeqAt(irs, n) <==> (m - n) % TWO32 == 0
    ensures m < n + TWO32 && n < m + TWO32 ==> ((m - n) % TWO32 == 0 <==> m == n)
  {
  }
}
