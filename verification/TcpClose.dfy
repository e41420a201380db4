/** What becomes of a FIN (sections 3.6 and 3.8.1 of RFC 9293): where Close and the timer put it, and that one
    which is lost is never put right. */
module TcpClose {
  import opened Words
  import opened Rings
  import opened Tcp
  import opened TcpEndToEnd
  import TcpTransmit

  predicate SendsFin(c: Conn) {
    c.tcp == FinWait1 || c.tcp == LastAck
  }

  /** Close on an open connection: one FIN at seqNum, and the timer stays as it is. */
  lemma CloseShape(c: Conn)
    requires |c.rx| <= SIZE && Open(c)
    ensures var d := Close(c, true);
            && SendsFin(d) && d.sent == c.sent + [d.sent[|c.sent|]]
            && d.retx == c.retx && d.retxCount == c.retxCount && d.sndUna == c.sndUna
            && d.written == c.written && d.tx == c.tx && d.rx == c.rx
            && var s := d.sent[|c.sent|];
               s.flags.fin && !s.flags.syn && !s.flags.rst && s.data == [] && s.seqNum == c.seqNum
  {
    hide Add32;
  }

  /** Close sends its FIN behind everything written if and only if all of it was sent before: seqNum is the number
      behind the ring, counted from byte 0's own number, which a passive open (delta 1) leaves one above the base. */
  lemma CloseExact(c: Conn, base: u32, delta: nat)
    requires Sound(c) && TcpTransmit.Aligned(c, base) && delta <= 1 && Open(c)
    ensures var d := Close(c, true);
            && d.sent == c.sent + [d.sent[|c.sent|]]
            && var s := d.sent[|c.sent|];
               && s.flags.fin && s.data == [] && s.seqNum == c.seqNum
               && (Carries(s, TcpTransmit.Pos(base, delta), c.written, true) <==> c.seqNum == Add32(EndSeq(c), delta))
  {
    hide Carries, Close;
    CloseShape(c);
    FinExact(c, Close(c, true).sent[|c.sent|], base, delta);
  }

  lemma LateFinShape(c: Conn, now: int)
    requires Sound(c) && SendsFin(c) && Retransmits(c, now)
    ensures var d := Tick(c, now, true);
            && d.sent == c.sent + [d.sent[|c.sent|]] && d.written == c.written
            && var s := d.sent[|c.sent|];
               s.flags.fin && !s.flags.syn && !s.flags.rst && s.data == [] && s.seqNum == c.sndUna
  {
    var r := Rewind(c, now);
    assert OutputFlags(r) == FIN_ACK;
    hide Output;
    OutputShape(r, now, true);
    OutputNoRst(r, now);
  }

  lemma OutputNoRst(c: Conn, now: int)
    requires |c.rx| <= SIZE
    ensures var d := Output(c, now, true); |d.sent| == |c.sent| + 1 && !d.sent[|c.sent|].flags.rst
  {
    hide OutputData, Add32;
  }

  /** A retransmitted FIN carries no text and stands at sndUna. That is the end of what was written if and only if
      nothing is left in the ring and the open was active. */
  lemma LateFinExact(c: Conn, base: u32, delta: nat, now: int)
    requires Sound(c) && TcpTransmit.Aligned(c, base) && delta <= 1 && SendsFin(c) && Retransmits(c, now)
    ensures var d := Tick(c, now, true);
            && d.sent == c.sent + [d.sent[|c.sent|]]
            && var s := d.sent[|c.sent|];
               && s.flags.fin && s.data == [] && s.seqNum == TcpTransmit.Pos(base, |c.dropped|)
               && (Carries(s, TcpTransmit.Pos(base, delta), c.written, true) <==> c.tx == [] && delta == 0)
  {
    hide Carries, Tick;
    LateFinShape(c, now);
    FinExact(c, Tick(c, now, true).sent[|c.sent|], base, delta);
    EndBehind(c, delta);
  }

  lemma EndBehind(c: Conn, delta: nat)
    requires |c.tx| <= SIZE && delta <= 1
    ensures Add32(EndSeq(c), delta) == c.sndUna <==> c.tx == [] && delta == 0
  {
  }

  // ---------------------------------------------------------------- over all runs

  /** No Send goes on once Close was called, as Send checks; everything else may happen at any time. */
  predicate OneCaller(c: Conn, e: Event) {
    e.Send? || e.Nudge? ==> !SendsFin(c)
  }

  ghost predicate OneCallerAll(c: Conn, es: seq<Event>)
    requires Sound(c)
    decreases |es|
  {
    es == [] || (OneCaller(c, es[0]) && (StepSound(c, es[0]); OneCallerAll(Step(c, es[0]), es[1..])))
  }

  /** With an empty ring no timer runs, once the connection is past its SYN and until its FIN is acknowledged. */
  ghost predicate Idle(c: Conn) {
    (Open(c) || SendsFin(c) || c.tcp == SynReceived) && c.tx == [] ==> c.retx == Unset
  }

  lemma OutputIdle(c: Conn, now: int, up: bool)
    requires |c.rx| <= SIZE && |c.tx| <= SIZE && Idle(c) && !SendsFin(c)
    ensures Idle(Output(c, now, up))
  {
  }

  lemma AckIdle(c: Conn, ackNum: u32, now: int)
    requires Idle(c)
    ensures Idle(ProcessAck(c, ackNum, now)) && ProcessAck(c, ackNum, now).tcp == c.tcp
  {
  }

  lemma EstablishedIdle(c: Conn, s: Segment, now: int, up: bool)
    requires Sound(c) && Idle(c) && c.tcp == Established
    ensures Idle(InEstablished(c, s, now, up))
  {
    hide ProcessAck, Add32;
    AckIdle(c, s.ackNum, now);
    AckSound(c, s.ackNum, now);
    var c1 := TakeAck(c, s, now);
    var c2 := TakeData(c1, s, up);
    assert c1.tcp == Established && Idle(c1);
    assert c2.tx == c1.tx && c2.retx == c1.retx && c2.tcp == Established && |c2.rx| <= SIZE;
    var c3 := TakeFin(c2, s, up);
    assert c3.tx == c2.tx && c3.retx == c2.retx;
  }

  lemma FinWaitIdle(c: Conn, s: Segment, now: int, up: bool)
    requires Sound(c) && Idle(c) && c.tcp == FinWait1
    ensures Idle(InFinWait1(c, s, now, up))
  {
    hide ProcessAck, Add32;
    AckIdle(c, s.ackNum, now);
  }

  lemma InputIdle(c: Conn, s: Segment, now: int, up: bool)
    requires Sound(c) && Idle(c)
    ensures Idle(Input(c, s, now, up))
  {
    hide InEstablished, InFinWait1, ProcessAck, Add32;
    match c.tcp {
      case Established => EstablishedIdle(c, s, now, up);
      case FinWait1 => FinWaitIdle(c, s, now, up);
      case CloseWait => AckIdle(c, s.ackNum, now);
      case _ =>
    }
  }

  lemma TickIdle(c: Conn, now: int, up: bool)
    requires Sound(c) && Idle(c)
    ensures Idle(Tick(c, now, up))
  {
    if Retransmits(c, now) {
      OutputFrame(Rewind(c, now), now, up);
    }
    hide Output;
  }

  lemma StepIdle(c: Conn, e: Event)
    requires Sound(c) && Idle(c) && OneCaller(c, e)
    ensures Idle(Step(c, e))
  {
    hide Input, Tick, Output;
    match e {
      case Arrive(seg, now, up) => InputIdle(c, seg, now, up);
      case Timer(now, up) => TickIdle(c, now, up);
      case Send(data, now, up) => OutputIdle(Extended(c, data), now, up);
      case Nudge(now, up) => OutputIdle(c, now, up);
      case Recv(max) =>
      case Shut(up) =>
    }
  }

  lemma {:induction false} RunIdle(c: Conn, es: seq<Event>)
    requires Sound(c) && Idle(c) && OneCallerAll(c, es)
    ensures Idle(Run(c, es))
    decreases |es|
  {
    if es == [] {
    } else {
      StepSound(c, es[0]);
      StepIdle(c, es[0]);
      hide Step, Idle;
      RunIdle(Step(c, es[0]), es[1..]);
    }
  }

  /** A connection just opened, actively (delta 0) or passively (delta 1). */
  ghost predicate JustOpened(c: Conn, delta: nat) {
    || (delta == 0
        && exists sent, isn, now, up :: c == Connect(Blank(sent).(sock := Bound, mss := MAX_SEG), isn, now, up))
    || (delta == 1 && exists sent, irs, isn, mss, up :: c == Spawn(sent, irs, isn, mss, up))
  }

  lemma OpenedIdle(c: Conn, delta: nat)
    requires JustOpened(c, delta)
    ensures Sound(c) && Idle(c)
  {
  }

  /** In every run from either open: whenever the timer retransmits a FIN, bytes are still unacknowledged and the FIN
      stands before them. So a FIN that was lost is never sent again where it belongs. */
  lemma LostFinStaysLost(c0: Conn, delta: nat, es: seq<Event>, now: int, base: u32)
    requires JustOpened(c0, delta) && Sound(c0) && OneCallerAll(c0, es)
    requires var c := Run(c0, es); SendsFin(c) && Retransmits(c, now) && TcpTransmit.Aligned(c, base)
    ensures var c := Run(c0, es);
            var d := Tick(c, now, true);
            && c.tx != [] && |d.sent| == |c.sent| + 1
            && var s := d.sent[|c.sent|];
               && s.flags.fin && s.data == [] && s.seqNum == c.sndUna && s.seqNum != Add32(EndSeq(c), delta)
               && !Carries(s, TcpTransmit.Pos(base, delta), c.written, true)
  {
    OpenedIdle(c0, delta);
    RunIdle(c0, es);
    var c := Run(c0, es);
    hide Tick, Run, OneCallerAll, Carries;
    LateFinShape(c, now);
    LateFinExact(c, base, delta, now);
    EndBehind(c, delta);
  }

  /** Closed with an empty ring, in any run from either open: whatever arrives and however long the timer ticks after
      that, nothing but acknowledgments is ever sent again, whether or not the FIN arrived. */
  lemma CloseNeverRetries(c0: Conn, delta: nat, es: seq<Event>, up: bool, later: seq<Event>)
    requires JustOpened(c0, delta) && Sound(c0) && OneCallerAll(c0, es)
    requires Open(Run(c0, es)) && Run(c0, es).tx == []
    requires forall i | 0 <= i < |later| :: later[i].Arrive? || later[i].Timer? || later[i].Recv?
    ensures var k := Close(Run(c0, es), up);
            && Sound(k)
            && var d := Run(k, later);
               |k.sent| <= |d.sent| && d.sent[..|k.sent|] == k.sent
               && forall i | |k.sent| <= i < |d.sent| :: d.sent[i].flags == ACK && d.sent[i].data == []
  {
    OpenedIdle(c0, delta);
    RunIdle(c0, es);
    hide Run, OneCallerAll, Sound;
    ClosedQuiet(Run(c0, es), up);
    StaysQuiet(Close(Run(c0, es), up), later);
  }

  /** On the way out with nothing to repeat. */
  ghost predicate Quiet(c: Conn) {
    && Sound(c) && !Open(c) && c.tcp != SynSent && c.tcp != SynReceived && c.tx == []
    && (c.tcp != TimeWait && c.tcp != NoTcp ==> c.retx == Unset)
  }

  lemma ClosedQuiet(c: Conn, up: bool)
    requires Sound(c) && Open(c) && c.retx == Unset && c.tx == []
    ensures Quiet(Close(c, up))
  {
  }

  lemma FinWaitQuiet(c: Conn, s: Segment, now: int, up: bool)
    requires Quiet(c) && c.tcp == FinWait1
    ensures Quiet(InFinWait1(c, s, now, up))
  {
    var c1 := if s.flags.ack then ProcessAck(c, s.ackNum, now) else c;
    assert c1 == c;
    FinWait1Sound(c, s, now, up);
    hide ProcessAck, Add32;
  }

  lemma InputQuiet(c: Conn, s: Segment, now: int, up: bool)
    requires Quiet(c)
    ensures Quiet(Input(c, s, now, up)) && OnlyAcks(c, Input(c, s, now, up))
  {
    hide InFinWait1, OnlyAcks, Add32;
    InputActs(c, s, now, up);
    InputSound(c, s, now, up);
    if c.tcp == FinWait1 {
      FinWaitQuiet(c, s, now, up);
    }
  }

  lemma StepQuiet(c: Conn, e: Event)
    requires Quiet(c) && (e.Arrive? || e.Timer? || e.Recv?)
    ensures Quiet(Step(c, e)) && OnlyAcks(c, Step(c, e))
  {
    StepSound(c, e);
    match e {
      case Arrive(seg, now, up) => InputQuiet(c, seg, now, up);
      case _ =>
    }
  }

  lemma {:induction false} StaysQuiet(c: Conn, later: seq<Event>)
    requires Quiet(c)
    requires forall i | 0 <= i < |later| :: later[i].Arrive? || later[i].Timer? || later[i].Recv?
    ensures var d := Run(c, later);
            |c.sent| <= |d.sent| && d.sent[..|c.sent|] == c.sent
            && forall i | |c.sent| <= i < |d.sent| :: d.sent[i].flags == ACK && d.sent[i].data == []
    decreases |later|
  {
    if later == [] {
    } else {
      StepQuiet(c, later[0]);
      var next := Step(c, later[0]);
      StepSound(c, later[0]);
      StaysQuiet(next, later[1..]);
      hide Step, Quiet;
      var d := Run(next, later[1..]);
      assert Run(c, later) == d;
      forall i | |c.sent| <= i < |d.sent|
        ensures d.sent[i].flags == ACK && d.sent[i].data == []
      {
        if i < |next.sent| {
          assert d.sent[i] == d.sent[..|next.sent|][i];
        }
      }
      assert d.sent[..|c.sent|] == d.sent[..|next.sent|][..|c.sent|];
    }
  }

  // ---------------------------------------------------------------- the ordinary calls

  /** Send, then Close, and the segment with the text is lost: the timer sends a bare FIN in its place, and a receiver
      that waits for the text takes it as the end of the stream. */
  lemma SendCloseTruncates(c: Conn, data: seq<byte>, t0: int, t1: int, b: Conn, up: bool)
    requires Sound(c) && c.tcp == Established && c.tx == [] && c.seqNum == c.sndUna
    requires c.retx == Unset && c.retxCount < MAX_RETX && t1 > t0 + RETX_TIMEOUT
    requires 0 < |data| <= MAX_SEG && |data| <= c.remoteWin && |data| <= c.mss
    requires Sound(b) && b.tcp == Established && b.ackNum == c.seqNum
    ensures var d := Tick(Close(Write(c, data, t0, true), true), t1, true);
            && |d.sent| == |c.sent| + 3 && d.written == c.written + data
            && d.sent[|c.sent|].data == data && d.sent[|c.sent|].seqNum == c.seqNum
            && var s := d.sent[|c.sent| + 2];
               && s.flags.fin && s.data == [] && s.seqNum == c.seqNum
               && var r := Input(b, s, t1, up); r.tcp == CloseWait && r.accepted == b.accepted
  {
    TcpTransmit.WriteSends(c, data, t0);
    assert c.tx + data == data;
    var w := Write(c, data, t0, true);
    WroteOpen(c, data, t0);
    var k := Close(w, true);
    CloseShape(w);
    CloseSound(w);
    hide Write, Close, Tick, Input;
    LateFinShape(k, t1);
    BareFinCloses(b, Tick(k, t1, true).sent[|c.sent| + 2], t1, up);
  }

  /** After a passive open, Send of one byte more than a segment takes, then Close: the FIN has the last byte's own
      number, and a receiver that has all the others takes it as the end. */
  lemma PassiveCloseTruncates(sent: seq<Segment>, irs: u32, isn: u32, mss: u16, ack: Segment, data: seq<byte>,
                              now: int, up: bool, b: Conn)
    requires ack.flags == ACK && 0 < mss <= MAX_SEG && |data| == mss + 1
    requires Sound(b) && b.tcp == Established && b.ackNum == TcpTransmit.Pos(Add32(isn, 1), mss)
    ensures var c := Input(Spawn(sent, irs, isn, mss, true), ack, now, up);
            && Sound(c) && c.tcp == Established && c.written == []
            && var w := Write(c, data, now, true);
               && Sound(w) && w.tcp == Established && w.written == data && w.seqNum == EndSeq(w)
               && var d := Close(w, true);
                  && |d.sent| == |w.sent| + 1
                  && var s := d.sent[|w.sent|];
                     && s.flags.fin && s.data == [] && s.seqNum == TcpTransmit.Pos(Add32(isn, 1), mss)
                     && !Carries(s, Add32(isn, 1), data, true)
                     && var r := Input(b, s, now, up); r.tcp == CloseWait && r.accepted == b.accepted
  {
    var c := Input(Spawn(sent, irs, isn, mss, true), ack, now, up);
    PassiveRest(sent, irs, isn, mss, ack, now, up);
    PassiveWrote(c, isn, mss, data, now);
    var w := Write(c, data, now, true);
    hide Write, Input, Spawn, Close, Carries, TcpTransmit.Pos, TcpTransmit.Aligned;
    EarlyFinTruncates(w, isn, b, now, up);
  }

  /** A passive side that closes one byte before the end of what it sent. */
  lemma EarlyFinTruncates(w: Conn, isn: u32, b: Conn, now: int, up: bool)
    requires Sound(w) && Open(w) && TcpTransmit.Aligned(w, isn) && w.seqNum == EndSeq(w)
    requires Sound(b) && b.tcp == Established && b.ackNum == w.seqNum
    ensures var d := Close(w, true);
            && |d.sent| == |w.sent| + 1
            && var s := d.sent[|w.sent|];
               && s.flags.fin && s.data == [] && s.seqNum == w.seqNum && !Carries(s, Add32(isn, 1), w.written, true)
               && var r := Input(b, s, now, up); r.tcp == CloseWait && r.accepted == b.accepted
  {
    hide Input, Close, Carries;
    CloseShape(w);
    CloseExact(w, isn, 1);
    EndIsNot(w);
    assert TcpTransmit.Pos(isn, 1) == Add32(isn, 1) by {
      TcpTransmit.SumPos(isn, 0, 1);
    }
    hide TcpTransmit.Pos, Add32;
    BareFinCloses(b, Close(w, true).sent[|w.sent|], now, up);
  }

  lemma EndIsNot(c: Conn)
    requires |c.tx| <= SIZE
    ensures EndSeq(c) != Add32(EndSeq(c), 1)
  {
  }

  lemma PassiveRest(sent: seq<Segment>, irs: u32, isn: u32, mss: u16, ack: Segment, now: int, up: bool)
    requires ack.flags == ACK
    ensures var c := Input(Spawn(sent, irs, isn, mss, true), ack, now, up);
            && Sound(c) && c.tcp == Established && c.written == [] && c.tx == [] && c.dropped == []
            && c.sndUna == isn && c.seqNum == Add32(isn, 1) && c.mss == mss && c.remoteWin == MAX_SEG
  {
  }

  lemma PassiveWrote(c: Conn, isn: u32, mss: u16, data: seq<byte>, now: int)
    requires Sound(c) && c.tcp == Established && c.written == [] && c.tx == [] && c.dropped == []
    requires c.sndUna == isn && c.seqNum == Add32(isn, 1) && c.mss == mss && c.remoteWin == MAX_SEG
    requires 0 < mss <= MAX_SEG && |data| == mss + 1
    ensures var w := Write(c, data, now, true);
            && Sound(w) && w.tcp == Established && w.written == data && w.seqNum == EndSeq(w)
            && TcpTransmit.Aligned(w, isn) && w.seqNum == TcpTransmit.Pos(Add32(isn, 1), mss)
  {
    WriteSound(c, data, now, true);
    var e := Extended(c, data);
    ExtendedWhole(c, mss, data);
    OutputShape(e, now, true);
    OutputFrame(e, now, true);
    assert Write(c, data, now, true) == Output(e, now, true);
    hide Output, Extended, OutputData, Add32, TcpTransmit.Pos;
    EndOfOneMore(isn, mss);
  }

  lemma ExtendedWhole(c: Conn, mss: u16, data: seq<byte>)
    requires Sound(c) && c.tcp == Established && c.written == [] && c.tx == []
    requires c.mss == mss && c.remoteWin == MAX_SEG && 0 < mss <= MAX_SEG && |data| == mss + 1
    ensures var e := Extended(c, data);
            && e.tx == data && e.written == data && |OutputData(e)| == mss && !OutputFlags(e).fin
  {
    assert data[..|data|] == data && [] + data == data;
  }

  lemma EndOfOneMore(isn: u32, mss: u16)
    ensures Add32(Add32(isn, 1), mss) == Add32(isn, mss + 1) == TcpTransmit.Pos(Add32(isn, 1), mss)
    ensures TcpTransmit.Pos(isn, 0) == isn
  {
  }

  lemma CloseSound(c: Conn)
    requires Sound(c) && Open(c)
    ensures Sound(Close(c, true))
  {
  }

  lemma WroteOpen(c: Conn, data: seq<byte>, now: int)
    requires Sound(c) && c.tcp == Established && c.tx == [] && c.retx == Unset
    requires 0 < |data| <= MAX_SEG && |data| <= c.remoteWin && |data| <= c.mss
    ensures var w := Write(c, data, now, true);
            && w.retx == At(now + RETX_TIMEOUT) && w.retxCount == c.retxCount && w.sndUna == c.sndUna
            && w.written == c.written + data && w.rx == c.rx && w.tcp == Established && Sound(w)
  {
    WriteSound(c, data, now, true);
    assert data[..|data|] == data;
    assert OutputData(Extended(c, data)) == data;
  }

  lemma BareFinCloses(b: Conn, s: Segment, now: int, up: bool)
    requires Sound(b) && b.tcp == Established && s.data == [] && s.flags.fin && !s.flags.rst && s.seqNum == b.ackNum
    ensures var r := Input(b, s, now, up); r.tcp == CloseWait && r.accepted == b.accepted
  {
    hide ProcessAck;
    var b1 := TakeAck(b, s, now);
    TakeAckActs(b, s, now);
    assert b1.ackNum == b.ackNum && b1.accepted == b.accepted by {
      AckKeepsReceive(b, s.ackNum, now);
    }
    assert TakeData(b1, s, up) == b1;
    assert Add32(s.seqNum, 0) == s.seqNum;
  }

  lemma AckKeepsReceive(b: Conn, ackNum: u32, now: int)
    ensures var d := ProcessAck(b, ackNum, now); d.ackNum == b.ackNum && d.accepted == b.accepted
  {
  }
}
