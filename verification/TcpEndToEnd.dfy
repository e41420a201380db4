/** A sender that waits for each segment's acknowledgment before it sends the next, and closes once everything was
    sent, puts one byte stream on the wire, whatever the network does to its peer's segments. */
module TcpEndToEnd {
  import opened Words
  import opened Rings
  import opened Tcp
  import TcpTransmit

  predicate Open(c: Conn) {
    c.tcp == Established || c.tcp == CloseWait
  }

  /** The sequence number behind everything written, when the ring's oldest byte has number sndUna. After a passive
      open that byte's number is one higher, and so is the end. */
  function EndSeq(c: Conn): u32
    requires |c.tx| <= SIZE
  {
    Add32(c.sndUna, |c.tx|)
  }

  /** What output would send now belongs where it would stand: text while nothing is in flight, a FIN at the end
      of what was written. After an active open, these are the exact conditions of PairingExact and FinExact. */
  predicate MayOutput(c: Conn)
    requires |c.tx| <= SIZE
  {
    && (Open(c) ==> c.seqNum == c.sndUna || OutputData(c) == [])
    && (OutputFlags(c).fin ==> c.seqNum == EndSeq(c))
  }

  /** The sender waits: it outputs only where output is right, and closes once everything written was sent. */
  predicate Calm(c: Conn, e: Event)
    requires |c.tx| <= SIZE
  {
    match e
    case Send(data, _, _) => Open(c) && MayOutput(Extended(c, data))
    case Nudge(_, _) => MayOutput(c)
    case Timer(now, _) => Retransmits(c, now) ==> MayOutput(Rewind(c, now))
    case Shut(_) => Open(c) && c.seqNum == EndSeq(c)
    case _ => true
  }

  ghost predicate StopAndWait(c: Conn, es: seq<Event>)
    requires Sound(c)
    decreases |es|
  {
    es == [] || (Calm(c, es[0]) && (StepSound(c, es[0]); StopAndWait(Step(c, es[0]), es[1..])))
  }

  /** A segment carries stream bytes from n on; once the stream is closed, its FIN, or nothing behind it. */
  ghost predicate CarriesAt(s: Segment, base: u32, w: seq<byte>, closed: bool, n: nat) {
    && s.seqNum == TcpTransmit.Pos(base, n)
    && !s.flags.syn
    && (if n + |s.data| <= |w|
        then s.data == w[n..n + |s.data|] && (s.flags.fin ==> closed && n + |s.data| == |w|)
        else closed && n == |w| + 1 && s.data == [] && !s.flags.fin)
  }

  ghost predicate Carries(s: Segment, base: u32, w: seq<byte>, closed: bool) {
    exists n: nat :: CarriesAt(s, base, w, closed, n)
  }

  ghost predicate AllCarry(sent: seq<Segment>, from: nat, base: u32, w: seq<byte>, closed: bool) {
    forall k | from <= k < |sent| :: Carries(sent[k], base, w, closed)
  }

  ghost predicate NextAt(c: Conn, base: u32, m: nat) {
    c.seqNum == TcpTransmit.Pos(base, m) && m <= |c.written| + Bit(!Open(c))
  }

  ghost predicate OneStream(c: Conn, base: u32, from: nat) {
    && Sound(c) && TcpTransmit.Aligned(c, base) && from <= |c.sent|
    && c.tcp != SynSent && c.tcp != SynReceived
    && (exists m: nat :: NextAt(c, base, m))
    && AllCarry(c.sent, from, base, c.written, !Open(c))
  }

  lemma CarriesMore(s: Segment, base: u32, w: seq<byte>, v: seq<byte>, closed: bool)
    requires Carries(s, base, w, false)
    ensures Carries(s, base, w + v, closed)
  {
    var n: nat :| CarriesAt(s, base, w, false, n);
    assert CarriesAt(s, base, w + v, closed, n);
  }

  lemma AllCarryMore(sent: seq<Segment>, from: nat, base: u32, w: seq<byte>, v: seq<byte>, closed: bool)
    requires AllCarry(sent, from, base, w, false)
    ensures AllCarry(sent, from, base, w + v, closed)
  {
    hide Carries;
    forall k | from <= k < |sent|
      ensures Carries(sent[k], base, w + v, closed)
    {
      CarriesMore(sent[k], base, w, v, closed);
    }
  }

  lemma AllCarryClosed(sent: seq<Segment>, from: nat, base: u32, w: seq<byte>, was: bool, closed: bool)
    requires AllCarry(sent, from, base, w, was) && (was ==> closed)
    ensures AllCarry(sent, from, base, w, closed)
  {
    if was != closed {
      AllCarryMore(sent, from, base, w, [], closed);
      assert w + [] == w;
    }
  }

  lemma AllCarryOne(sent: seq<Segment>, s: Segment, from: nat, base: u32, w: seq<byte>, closed: bool)
    requires AllCarry(sent, from, base, w, closed) && Carries(s, base, w, closed)
    ensures AllCarry(sent + [s], from, base, w, closed)
  {
    hide Carries;
  }

  // ---------------------------------------------------------------- sending

  /** Output with a known next hop: one segment, and nothing else the stream depends on. */
  lemma OutputShape(c: Conn, now: int, up: bool)
    requires |c.rx| <= SIZE && c.tcp != SynSent
    ensures var d := Output(c, now, up);
            && d.tcp == c.tcp && d.written == c.written && d.tx == c.tx && d.dropped == c.dropped
            && d.sndUna == c.sndUna
            && (!up ==> d.sent == c.sent && d.seqNum == c.seqNum)
            && (up ==>
                  && |d.sent| == |c.sent| + 1 && d.sent == c.sent + [d.sent[|c.sent|]]
                  && var s := d.sent[|c.sent|];
                     && s.seqNum == c.seqNum && s.data == OutputData(c) && !s.flags.syn
                     && s.flags.fin == OutputFlags(c).fin
                     && d.seqNum == Add32(c.seqNum, |s.data| + Bit(s.flags.fin)))
  {
    assert OutputData(c.(finSent := true)) == OutputData(c);
    hide OutputData, Add32;
  }

  lemma EndPos(c: Conn, base: u32, delta: nat)
    requires Sound(c) && TcpTransmit.Aligned(c, base) && delta <= 1
    ensures Add32(EndSeq(c), delta) == TcpTransmit.Pos(TcpTransmit.Pos(base, delta), |c.written|)
    ensures delta == 0 ==> TcpTransmit.Pos(base, delta) == base && Add32(EndSeq(c), delta) == EndSeq(c)
  {
    assert |c.written| == |c.dropped| + |c.tx|;
    TcpTransmit.SumPos(base, |c.dropped|, |c.tx|);
    TcpTransmit.SumPos(base, |c.written|, delta);
    TcpTransmit.AckPos(base, delta, |c.written|);
  }

  /** A FIN without text is right exactly at the end of everything written. Byte 0 has the base's own number after an
      active open (delta 0) and the next one after a passive open (delta 1). */
  lemma FinExact(c: Conn, s: Segment, base: u32, delta: nat)
    requires Sound(c) && TcpTransmit.Aligned(c, base) && delta <= 1
    requires s.data == [] && s.flags.fin && !s.flags.syn
    ensures Carries(s, TcpTransmit.Pos(base, delta), c.written, true) <==> s.seqNum == Add32(EndSeq(c), delta)
  {
    EndPos(c, base, delta);
    hide TcpTransmit.Pos, Add32;
    if s.seqNum == Add32(EndSeq(c), delta) {
      assert CarriesAt(s, TcpTransmit.Pos(base, delta), c.written, true, |c.written|);
    }
  }

  /** What output puts on the wire where it may. */
  lemma OutputCarries(c: Conn, d: Conn, s: Segment, base: u32, m: nat)
    requires Sound(c) && TcpTransmit.Aligned(c, base) && MayOutput(c) && NextAt(c, base, m) && c.tcp != SynSent
    requires s.seqNum == c.seqNum && s.data == OutputData(c) && !s.flags.syn && s.flags.fin == OutputFlags(c).fin
    requires d.seqNum == Add32(c.seqNum, |s.data| + Bit(s.flags.fin)) && d.written == c.written && d.tcp == c.tcp
    ensures Carries(s, base, c.written, !Open(c))
    ensures exists k: nat :: NextAt(d, base, k)
  {
    assert c.written == c.dropped + c.tx;
    var at := if s.flags.fin then |c.written| else if s.data == [] then m else |c.dropped|;
    EndPos(c, base, 0);
    assert c.seqNum == TcpTransmit.Pos(base, at);
    TcpTransmit.SumPos(base, at, |s.data| + Bit(s.flags.fin));
    hide TcpTransmit.Pos, Add32;
    if s.data != [] {
      assert c.written[|c.dropped|..|c.dropped| + |s.data|] == s.data;
    }
    assert CarriesAt(s, base, c.written, !Open(c), at);
    assert NextAt(d, base, at + |s.data| + Bit(s.flags.fin));
  }

  lemma OutputKeeps(c: Conn, base: u32, from: nat, now: int, up: bool)
    requires OneStream(c, base, from) && MayOutput(c)
    ensures OneStream(Output(c, now, up), base, from)
  {
    hide Output, OutputData, OutputFlags, MayOutput, Carries, NextAt, AllCarry;
    OutputSound(c, now, up);
    OutputShape(c, now, up);
    var d := Output(c, now, up);
    var m: nat :| NextAt(c, base, m);
    if up {
      OutputCarries(c, d, d.sent[|c.sent|], base, m);
      AllCarryOne(c.sent, d.sent[|c.sent|], from, base, c.written, !Open(c));
    } else {
      NextSame(c, d, base, m);
    }
  }

  lemma NextSame(c: Conn, d: Conn, base: u32, m: nat)
    requires NextAt(c, base, m) && d.seqNum == c.seqNum && d.written == c.written && d.tcp == c.tcp
    ensures NextAt(d, base, m)
  {
  }

  lemma WriteKeeps(c: Conn, data: seq<byte>, base: u32, from: nat, now: int, up: bool)
    requires OneStream(c, base, from) && Open(c) && MayOutput(Extended(c, data))
    ensures OneStream(Write(c, data, now, up), base, from)
  {
    hide MayOutput, Output;
    var n := Written(c, data);
    var d := Extended(c, data);
    assert d.dropped + d.tx == d.written;
    var m: nat :| NextAt(c, base, m);
    assert NextAt(d, base, m);
    AllCarryMore(c.sent, from, base, c.written, data[..n], false);
    OutputKeeps(d, base, from, now, up);
  }

  lemma TickKeeps(c: Conn, base: u32, from: nat, now: int, up: bool)
    requires OneStream(c, base, from) && Calm(c, Timer(now, up))
    ensures OneStream(Tick(c, now, up), base, from)
  {
    hide Output, Carries, MayOutput;
    var r := Rewind(c, now);
    assert NextAt(r, base, |c.dropped|) && |c.dropped| + |c.tx| == |c.written|;
    if Retransmits(c, now) {
      OutputKeeps(r, base, from, now, up);
    }
    AllCarryClosed(c.sent, from, base, c.written, !Open(c), true);
    var m: nat :| NextAt(c, base, m);
    assert NextAt(Abort(c), base, m);
  }

  lemma ShutKeeps(c: Conn, base: u32, from: nat, up: bool)
    requires OneStream(c, base, from) && Open(c) && c.seqNum == EndSeq(c)
    ensures OneStream(Close(c, up), base, from)
  {
    var d := Close(c, up);
    AllCarryClosed(c.sent, from, base, c.written, false, true);
    EndPos(c, base, 0);
    var m: nat :| NextAt(c, base, m);
    if up {
      var s := d.sent[|c.sent|];
      FinExact(c, s, base, 0);
      AllCarryOne(c.sent, s, from, base, c.written, true);
      TcpTransmit.SumPos(base, |c.written|, 1);
      assert NextAt(d, base, |c.written| + 1);
    } else {
      assert NextAt(d, base, m);
    }
  }

  // ---------------------------------------------------------------- receiving while sending

  /** Nothing but pure acknowledgments was sent. */
  ghost predicate OnlyAcks(c: Conn, d: Conn) {
    && d.seqNum == c.seqNum && d.written == c.written
    && |d.sent| >= |c.sent| && d.sent[..|c.sent|] == c.sent
    && forall k | |c.sent| <= k < |d.sent| ::
         d.sent[k].data == [] && d.sent[k].flags == ACK && d.sent[k].seqNum == c.seqNum
  }

  ghost predicate SameSide(c: Conn, d: Conn) {
    OnlyAcks(c, d) && (d.tcp == c.tcp || d.tcp == NoTcp || (Open(c) && Open(d)) || (!Open(c) && !Open(d)))
    && d.tcp != SynSent && d.tcp != SynReceived
  }

  lemma AckActs(c: Conn, s: Segment, now: int)
    ensures var d := ProcessAck(c, s.ackNum, now);
            OnlyAcks(c, d) && d.tcp == c.tcp && d.rx == c.rx
  {
  }

  lemma FlagsAct(c: Conn, d: Conn, up: bool)
    requires |d.rx| <= SIZE && OnlyAcks(c, d)
    ensures var e := SendFlags(d, ACK, up);
            OnlyAcks(c, e) && e.tcp == d.tcp && e.rx == d.rx
  {
    assert Add32(d.seqNum, 0) == d.seqNum;
    hide Add32;
  }

  lemma DataActs(c: Conn, d: Conn, s: Segment, up: bool)
    requires |d.rx| <= SIZE && OnlyAcks(c, d)
    ensures var e := TakeData(d, s, up);
            OnlyAcks(c, e) && e.tcp == d.tcp && |e.rx| <= SIZE
  {
    hide SendFlags, Add32;
    if |s.data| > 0 && s.seqNum == d.ackNum {
      FlagsAct(c, Accept(d, s.data), up);
    }
  }

  lemma FinActs(c: Conn, d: Conn, s: Segment, up: bool)
    requires |d.rx| <= SIZE && OnlyAcks(c, d)
    ensures var e := TakeFin(d, s, up);
            OnlyAcks(c, e) && (e.tcp == d.tcp || e.tcp == CloseWait)
  {
    hide SendFlags, Add32;
    FlagsAct(c, d.(ackNum := Add32(d.ackNum, 1), finRecvd := true, tcp := CloseWait), up);
  }

  lemma EstablishedActs(c: Conn, s: Segment, now: int, up: bool)
    requires Sound(c) && c.tcp == Established
    ensures SameSide(c, InEstablished(c, s, now, up))
  {
    hide TakeAck, TakeData, TakeFin, OnlyAcks;
    TakeAckActs(c, s, now);
    var c1 := TakeAck(c, s, now);
    DataActs(c, c1, s, up);
    var c2 := TakeData(c1, s, up);
    FinActs(c, c2, s, up);
    AbortActs(c, TakeFin(c2, s, up));
  }

  lemma TakeAckActs(c: Conn, s: Segment, now: int)
    ensures var d := TakeAck(c, s, now);
            OnlyAcks(c, d) && d.tcp == c.tcp && d.rx == c.rx
  {
    AckActs(c, s, now);
  }

  lemma AbortActs(c: Conn, d: Conn)
    requires OnlyAcks(c, d)
    ensures OnlyAcks(c, Abort(d))
  {
  }

  lemma FinWaitActs(c: Conn, s: Segment, now: int, up: bool)
    requires Sound(c) && c.tcp == FinWait1
    ensures SameSide(c, InFinWait1(c, s, now, up))
  {
    AckActs(c, s, now);
    var c1 := if s.flags.ack then ProcessAck(c, s.ackNum, now) else c;
    assert OnlyAcks(c, c1);
    FlagsAct(c, c1.(finAcked := true, ackNum := Add32(s.seqNum, 1), tcp := TimeWait), up);
    FlagsAct(c, c1.(ackNum := Add32(s.seqNum, 1), tcp := TimeWait), up);
    hide SendFlags, ProcessAck, Add32;
  }

  lemma InputActs(c: Conn, s: Segment, now: int, up: bool)
    requires Sound(c) && c.tcp != SynSent && c.tcp != SynReceived
    ensures SameSide(c, Input(c, s, now, up))
  {
    hide InEstablished, InFinWait1;
    if c.tcp == Established {
      EstablishedActs(c, s, now, up);
    } else if c.tcp == FinWait1 {
      FinWaitActs(c, s, now, up);
    }
  }

  lemma AckCarries(s: Segment, base: u32, w: seq<byte>, closed: bool, m: nat)
    requires s.data == [] && s.flags == ACK && s.seqNum == TcpTransmit.Pos(base, m) && m <= |w| + Bit(closed)
    ensures Carries(s, base, w, closed)
  {
    assert CarriesAt(s, base, w, closed, m);
  }

  lemma AcksCarry(c: Conn, d: Conn, base: u32, from: nat, m: nat)
    requires OnlyAcks(c, d) && from <= |c.sent| && NextAt(c, base, m) && (Open(d) ==> Open(c))
    requires AllCarry(c.sent, from, base, c.written, !Open(c))
    ensures AllCarry(d.sent, from, base, d.written, !Open(d)) && NextAt(d, base, m)
  {
    hide Carries;
    AllCarryClosed(c.sent, from, base, c.written, !Open(c), !Open(d));
    forall k | from <= k < |d.sent|
      ensures Carries(d.sent[k], base, d.written, !Open(d))
    {
      if k < |c.sent| {
        assert d.sent[k] == d.sent[..|c.sent|][k];
      } else {
        AckCarries(d.sent[k], base, d.written, !Open(d), m);
      }
    }
  }

  lemma ArriveKeeps(c: Conn, s: Segment, base: u32, from: nat, now: int, up: bool)
    requires OneStream(c, base, from)
    ensures OneStream(Input(c, s, now, up), base, from)
  {
    hide Input, AllCarry, NextAt, OnlyAcks, Carries;
    InputSound(c, s, now, up);
    TcpTransmit.ArriveAligned(c, s, base, now, up);
    InputActs(c, s, now, up);
    var d := Input(c, s, now, up);
    assert |d.sent| >= |c.sent| by {
      LongerSent(c, d);
    }
    var m: nat :| NextAt(c, base, m);
    AcksCarry(c, d, base, from, m);
  }

  lemma LongerSent(c: Conn, d: Conn)
    requires OnlyAcks(c, d)
    ensures |d.sent| >= |c.sent|
  {
  }

  // ---------------------------------------------------------------- runs

  lemma StepKeeps(c: Conn, e: Event, base: u32, from: nat)
    requires OneStream(c, base, from) && Calm(c, e)
    ensures OneStream(Step(c, e), base, from)
  {
    assert Sound(c);
    match e {
      case Arrive(seg, now, up) => ArriveKeeps(c, seg, base, from, now, up);
      case Timer(now, up) => TickKeeps(c, base, from, now, up);
      case Send(data, now, up) => WriteKeeps(c, data, base, from, now, up);
      case Nudge(now, up) => OutputKeeps(c, base, from, now, up);
      case Recv(max) => ReadKeeps(c, max, base, from);
      case Shut(up) => ShutKeeps(c, base, from, up);
    }
  }

  lemma ReadKeeps(c: Conn, max: nat, base: u32, from: nat)
    requires OneStream(c, base, from)
    ensures OneStream(Read(c, max), base, from)
  {
    ReadSound(c, max);
    var m: nat :| NextAt(c, base, m);
    assert NextAt(Read(c, max), base, m);
  }

  /** Over every stop-and-wait run, whatever arrives, all segments sent carry the one
      stream of bytes written, each at its own sequence number. */
  lemma {:induction false} RunSendsOneStream(c: Conn, es: seq<Event>, base: u32, from: nat)
    requires OneStream(c, base, from) && StopAndWait(c, es)
    ensures OneStream(Run(c, es), base, from)
    decreases |es|
  {
    assert Sound(c);
    hide OneStream, Step, Calm;
    if es == [] {
    } else {
      StepSound(c, es[0]);
      StepKeeps(c, es[0], base, from);
      RunSendsOneStream(Step(c, es[0]), es[1..], base, from);
    }
  }

  /** An active open starts a stream at the acknowledged number, with its handshake acknowledgment. */
  lemma ActiveOpenStarts(c: Conn, s: Segment, now: int, up: bool)
    requires Sound(c) && c.tcp == SynSent && c.written == [] && s.flags.syn && s.flags.ack
    ensures OneStream(Input(c, s, now, up), s.ackNum, |c.sent|)
  {
    var d := Input(c, s, now, up);
    assert c.dropped == [] && c.tx == [];
    assert NextAt(d, s.ackNum, 0);
    if up {
      AckCarries(d.sent[|c.sent|], s.ackNum, [], false, 0);
    }
  }
}
