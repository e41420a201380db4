/** From one host's application to the other's: every segment a connection ever sends crosses the wire unchanged,
    and a receiver of one stop-and-wait sender accepts a prefix of what was written there. */
module TcpDelivery {
  import opened Words
  import opened Rings
  import opened Tcp
  import opened Ipv4
  import TcpReceive
  import TcpTransmit
  import Transport
  import Receive
  import opened TcpEndToEnd

  // ---------------------------------------------------------------- onto the wire

  ghost predicate AllFit(sent: seq<Segment>) {
    forall k | 0 <= k < |sent| :: Transport.Fits(sent[k])
  }

  lemma SendFits(c: Conn, f: Flags, data: Payload)
    requires |c.rx| <= SIZE && AllFit(c.sent) && |data| <= MAX_SEG && (f.syn ==> data == [])
    ensures AllFit(SendTcp(c, f, data).sent)
  {
    hide Add32;
  }

  lemma FlagsFit(c: Conn, f: Flags, up: bool)
    requires |c.rx| <= SIZE && AllFit(c.sent)
    ensures AllFit(SendFlags(c, f, up).sent)
  {
    hide AllFit, SendTcp;
    SendFits(c, f, []);
  }

  lemma OutputFits(c: Conn, now: int, up: bool)
    requires Sound(c) && AllFit(c.sent)
    ensures AllFit(Output(c, now, up).sent)
  {
    var f := OutputFlags(c);
    var c1 := if f.fin then c.(finSent := true) else c;
    var data := OutputData(c1);
    assert |data| <= MAX_SEG && (f.syn ==> data == []);
    hide AllFit, SendTcp, OutputFlags, OutputData;
    SendFits(c1, if |data| > 0 then f.(psh := true) else f, data);
  }

  lemma EstablishedFits(c: Conn, s: Segment, now: int, up: bool)
    requires Sound(c) && AllFit(c.sent)
    ensures AllFit(InEstablished(c, s, now, up).sent)
  {
    var c1 := TakeAck(c, s, now);
    assert c1.sent == c.sent && c1.rx == c.rx;
    hide AllFit, SendTcp, TakeAck;
    FlagsFit(Accept(c1, s.data), ACK, up);
    var c2 := TakeData(c1, s, up);
    assert |c2.rx| <= SIZE by {
      DataActs(c1, c1, s, up);
    }
    assert AllFit(c2.sent);
    FlagsFit(c2.(ackNum := Add32(c2.ackNum, 1), finRecvd := true, tcp := CloseWait), ACK, up);
  }

  lemma TimeWaitFits(c: Conn, s: Segment, up: bool)
    requires |c.rx| <= SIZE && AllFit(c.sent)
    ensures AllFit(EnterTimeWait(c, s, up).sent)
  {
    FlagsFit(c.(ackNum := Add32(s.seqNum, 1), tcp := TimeWait), ACK, up);
  }

  lemma FinWaitFits(c: Conn, s: Segment, now: int, up: bool)
    requires Sound(c) && AllFit(c.sent)
    ensures AllFit(InFinWait1(c, s, now, up).sent)
  {
    var c1 := if s.flags.ack then ProcessAck(c, s.ackNum, now) else c;
    assert c1.sent == c.sent && c1.rx == c.rx;
    hide AllFit, EnterTimeWait, ProcessAck;
    TimeWaitFits(c1.(finAcked := true), s, up);
    TimeWaitFits(c1, s, up);
  }

  lemma SynSentFits(c: Conn, s: Segment, up: bool)
    requires Sound(c) && AllFit(c.sent)
    ensures AllFit(InSynSent(c, s, up).sent)
  {
    hide AllFit, SendFlags, Add32;
    FlagsFit(c.(ackNum := Add32(s.seqNum, 1), seqNum := s.ackNum, sndUna := s.ackNum, remoteWin := s.window,
                mss := s.mss, tcp := Established, sock := Connected, retx := Unset), ACK, up);
  }

  lemma InputFits(c: Conn, s: Segment, now: int, up: bool)
    requires Sound(c) && AllFit(c.sent)
    ensures AllFit(Input(c, s, now, up).sent)
  {
    hide AllFit, InSynSent, InEstablished, InFinWait1, EnterTimeWait;
    match c.tcp {
      case SynSent => SynSentFits(c, s, up);
      case Established => EstablishedFits(c, s, now, up);
      case FinWait1 => FinWaitFits(c, s, now, up);
      case FinWait2 => TimeWaitFits(c.(retx := At(now + TIME_WAIT)), s, up);
      case _ =>
    }
  }

  lemma StepFits(c: Conn, e: Event)
    requires Sound(c) && AllFit(c.sent)
    ensures AllFit(Step(c, e).sent)
  {
    hide AllFit, Input, Output, SendFlags;
    match e {
      case Arrive(seg, now, up) => InputFits(c, seg, now, up);
      case Timer(now, up) => OutputFits(Rewind(c, now), now, up);
      case Send(data, now, up) =>
        var d := Extended(c, data);
        assert d.dropped + d.tx == d.written;
        OutputFits(d, now, up);
      case Nudge(now, up) => OutputFits(c, now, up);
      case Recv(max) =>
      case Shut(up) =>
        FlagsFit(c.(tcp := if c.tcp == Established then FinWait1 else LastAck, sock := Closing), FIN_ACK, up);
    }
  }

  lemma {:induction false} RunFits(c: Conn, es: seq<Event>)
    requires Sound(c) && AllFit(c.sent)
    ensures AllFit(Run(c, es).sent)
    decreases |es|
  {
    hide AllFit, Step;
    if es == [] {
    } else {
      StepFits(c, es[0]);
      StepSound(c, es[0]);
      RunFits(Step(c, es[0]), es[1..]);
    }
  }

  /** Whatever a connection sends, in any run, the host it is addressed to reads back exactly. */
  lemma SegmentCrosses(c: Conn, es: seq<Event>, k: nat, h: Host, dstMac: Mac, dst: Addr, srcPort: u16, dstPort: u16,
                       padding: seq<byte>)
    requires Sound(c) && AllFit(c.sent) && k < |Run(c, es).sent| && h.ip.V4? && dst.V4?
    ensures var s := Run(c, es).sent[k];
            && Transport.Fits(s)
            && Receive.ReceiveEth(dst, Transport.TcpFrame(h, dstMac, dst, h.ip, srcPort, dstPort, s) + padding)
               == Receive.Segment(h.ip, srcPort, dstPort, s)
  {
    hide Run, Receive.ReceiveEth, Transport.TcpFrame;
    RunFits(c, es);
    Receive.TcpRoundTrip(dst, h, dstMac, dst, srcPort, dstPort, Run(c, es).sent[k], padding);
  }

  // ---------------------------------------------------------------- into the other application

  /** A segment the sender's stream contains, or its SYN. */
  ghost predicate FromSender(s: Segment, a: Conn, from: nat, irs: u32) {
    || (exists k :: from <= k < |a.sent| && a.sent[k] == s)
    || (s.flags.syn && !s.flags.fin && !s.flags.psh && s.data == [] && s.seqNum == irs)
  }

  lemma PosIsSeq(irs: u32, n: nat)
    ensures TcpTransmit.Pos(Add32(irs, 1), n) == TcpReceive.SeqAt(irs, n)
  {
  }

  /** Every segment of the sender is one of the peer segments the receive side is proved for. */
  lemma AsPeer(s: Segment, a: Conn, from: nat, irs: u32, n: nat) returns (p: TcpReceive.PeerSegment)
    requires OneStream(a, Add32(irs, 1), from) && FromSender(s, a, from, irs)
    requires |a.written| + 1 < TWO32 && n <= |a.written|
    ensures TcpReceive.OnWire(p, irs) == s && TcpReceive.Agrees(p, a.written) && TcpReceive.Recent(p, n)
  {
    hide NextAt;
    if k :| from <= k < |a.sent| && a.sent[k] == s {
      assert Carries(s, Add32(irs, 1), a.written, !Open(a));
      var m: nat :| CarriesAt(s, Add32(irs, 1), a.written, !Open(a), m);
      PosIsSeq(irs, m);
      p := TcpReceive.PeerText(m, s.data, s.ackNum, s.flags, s.window, s.mss);
    } else {
      p := TcpReceive.PeerSyn(s.ackNum, s.flags.ack, s.flags.rst, s.window, s.mss);
    }
  }

  lemma {:induction false} ReceiverInStep(b: Conn, es: seq<Event>, a: Conn, from: nat, irs: u32)
    requires OneStream(a, Add32(irs, 1), from) && |a.written| + 1 < TWO32
    requires Sound(b) && TcpReceive.InStep(b, irs, a.written)
    requires forall i | 0 <= i < |es| :: es[i].Arrive? ==> FromSender(es[i].seg, a, from, irs)
    ensures TcpReceive.InStep(Run(b, es), irs, a.written)
    decreases |es|
  {
    if es == [] {
    } else {
      ReceiverStep(b, es[0], a, from, irs);
      hide OneStream, FromSender, TcpReceive.InStep, Step;
      StepSound(b, es[0]);
      ReceiverInStep(Step(b, es[0]), es[1..], a, from, irs);
    }
  }

  lemma ReceiverStep(b: Conn, e: Event, a: Conn, from: nat, irs: u32)
    requires OneStream(a, Add32(irs, 1), from) && |a.written| + 1 < TWO32
    requires Sound(b) && TcpReceive.InStep(b, irs, a.written)
    requires e.Arrive? ==> FromSender(e.seg, a, from, irs)
    ensures TcpReceive.InStep(Step(b, e), irs, a.written)
  {
    assert |b.accepted| <= |a.written|;
    hide OneStream, FromSender, TcpReceive.InStep, Input;
    if e.Arrive? {
      var p := AsPeer(e.seg, a, from, irs, |b.accepted|);
      TcpReceive.ArriveInStep(b, p, irs, a.written, e.now, e.up);
    } else {
      TcpReceive.LocalInStep(b, e, irs, a.written);
    }
  }

  /** The active side once its SYN was answered. */
  ghost function Opened(a0: Conn, synAck: Segment, now: int, up: bool): (a: Conn)
    requires Sound(a0)
    ensures Sound(a)
  {
    InputSound(a0, synAck, now, up);
    Input(a0, synAck, now, up)
  }

  /** End to end: one side opens actively and sends stop-and-wait; its segments arrive in any order, any number of
      times or never at the side that opened passively. Then what that side's application has read and can read is
      a prefix of what was written, and all of it once the sender's FIN was taken. */
  lemma EndToEnd(a0: Conn, synAck: Segment, now: int, up: bool, aes: seq<Event>,
                 irs: u32, isn: u32, mss: u16, sent: seq<Segment>, answered: bool, bes: seq<Event>)
    requires Sound(a0) && a0.tcp == SynSent && a0.written == []
    requires synAck.flags.syn && synAck.flags.ack && synAck.ackNum == Add32(irs, 1)
    requires StopAndWait(Opened(a0, synAck, now, up), aes)
    requires var a := Run(Opened(a0, synAck, now, up), aes);
             && |a.written| + 1 < TWO32
             && forall i | 0 <= i < |bes| :: bes[i].Arrive? ==> FromSender(bes[i].seg, a, |a0.sent|, irs)
    ensures var a := Run(Opened(a0, synAck, now, up), aes);
            && Sound(Spawn(sent, irs, isn, mss, answered))
            && var b := Run(Spawn(sent, irs, isn, mss, answered), bes);
               && b.taken + b.rx == b.accepted && b.accepted <= a.written
               && (b.tcp == CloseWait ==> b.accepted == a.written)
  {
    var b0 := Spawn(sent, irs, isn, mss, answered);
    assert Sound(b0);
    ActiveOpenStarts(a0, synAck, now, up);
    var a1 := Opened(a0, synAck, now, up);
    assert OneStream(a1, synAck.ackNum, |a0.sent|);
    hide OneStream, Input, FromSender, Spawn, Run, Opened;
    RunSendsOneStream(a1, aes, synAck.ackNum, |a0.sent|);
    var a := Run(a1, aes);
    TcpReceive.OpeningInStep(b0, irs, a.written, sent, isn, mss, now, answered);
    ReceiverInStep(b0, bes, a, |a0.sent|, irs);
  }
}
