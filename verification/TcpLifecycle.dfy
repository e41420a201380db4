/** Socket state against TCP state, the rank every incarnation climbs, and the retransmission bound. */
module TcpLifecycle {
  import opened Words
  import opened Rings
  import opened Tcp

  /** The calls that start a new incarnation, and the traffic of the current one. */
  datatype Call =
    | NewSocket
    | Listen
    | Connect(isn: u32, now: int, up: bool)
    | SynOnListener(irs: u32, isn: u32, mss: u16, up: bool)
    | Traffic(e: Event)

  /** One table slot under one call. Calls on a free slot fail, allocation takes only a free slot, and
      segments are not dispatched to free or listening sockets. */
  function Do(c: Conn, k: Call): Conn
    requires |c.rx| <= SIZE && |c.tx| <= SIZE
  {
    match k
    case NewSocket => if c.sock == Free then Blank(c.sent).(sock := Bound, mss := MAX_SEG) else c
    case Listen => if c.sock != Free then c.(sock := Listening) else c
    case Connect(isn, now, up) => if c.sock != Free then Tcp.Connect(c, isn, now, up) else c
    case SynOnListener(irs, isn, mss, up) => if c.sock == Free then Spawn(c.sent, irs, isn, mss, up) else c
    case Traffic(e) =>
      if c.sock == Free || (e.Arrive? && c.sock == Listening) then c else Step(c, e)
  }

  /** The states the two machines may be in together. */
  ghost predicate Lockstep(c: Conn) {
    && (c.sock == Connected <==> c.tcp in {Established, CloseWait})
    && (c.sock == Connecting <==> c.tcp in {SynSent, SynReceived})
    && (c.sock == Closing <==> c.tcp in {FinWait1, FinWait2, TimeWait, LastAck})
    && (c.sock in {Free, Bound, Listening, Closed} <==> c.tcp == NoTcp)
    && c.retxCount <= MAX_RETX
  }

  ghost predicate SameState(c: Conn, d: Conn) {
    d.tcp == c.tcp && d.sock == c.sock && d.retxCount == c.retxCount
  }

  /** How far an incarnation has come. */
  function Rank(t: TcpState): nat {
    match t
    case SynSent => 0
    case SynReceived => 0
    case Established => 1
    case FinWait1 => 2
    case CloseWait => 2
    case FinWait2 => 3
    case LastAck => 3
    case TimeWait => 4
    case NoTcp => 5
  }

  /** What one step of traffic may do to the states: nothing, or one step up the rank in lockstep. */
  ghost predicate Climbs(c: Conn, d: Conn) {
    && (d.tcp == c.tcp ==> d.sock == c.sock || (c.tcp == NoTcp && d.sock == Free))
    && (d.tcp != c.tcp ==> Rank(c.tcp) < Rank(d.tcp))
    && Lockstep(d)
  }

  lemma AckClimbs(c: Conn, ackNum: u32, now: int)
    ensures var d := ProcessAck(c, ackNum, now);
            d.tcp == c.tcp && d.sock == c.sock && (d.retxCount == c.retxCount || d.retxCount == 0)
  {
  }

  lemma EstablishedClimbs(c: Conn, s: Segment, now: int, up: bool)
    requires Sound(c) && Lockstep(c) && c.tcp == Established
    ensures Climbs(c, InEstablished(c, s, now, up))
  {
    AckClimbs(c, s.ackNum, now);
    AckSound(c, s.ackNum, now);
    var c1 := TakeAck(c, s, now);
    var c2 := TakeData(c1, s, up);
    assert SameState(c1, c2) && |c2.rx| <= SIZE;
    var c3 := TakeFin(c2, s, up);
    assert c3.sock == c2.sock && c3.retxCount == c2.retxCount && c3.tcp in {Established, CloseWait};
  }

  lemma FinWait1Climbs(c: Conn, s: Segment, now: int, up: bool)
    requires Sound(c) && Lockstep(c) && c.tcp == FinWait1
    ensures Climbs(c, InFinWait1(c, s, now, up))
  {
    AckClimbs(c, s.ackNum, now);
    var c1 := if s.flags.ack then ProcessAck(c, s.ackNum, now) else c;
    assert |c1.rx| <= SIZE;
    TimeWaitEntered(c1.(finAcked := true), s, up);
    TimeWaitEntered(c1, s, up);
    hide ProcessAck, EnterTimeWait;
  }

  lemma TimeWaitEntered(c: Conn, s: Segment, up: bool)
    requires |c.rx| <= SIZE
    ensures var d := EnterTimeWait(c, s, up);
            d.tcp == TimeWait && d.sock == c.sock && d.retxCount == c.retxCount
  {
  }

  lemma OpeningClimbs(c: Conn, s: Segment, now: int, up: bool)
    requires Sound(c) && Lockstep(c) && (c.tcp == SynSent || c.tcp == SynReceived)
    ensures Climbs(c, Input(c, s, now, up))
  {
    hide InEstablished, InFinWait1, ProcessAck, Add32;
  }

  lemma ArriveClimbs(c: Conn, s: Segment, now: int, up: bool)
    requires Sound(c) && Lockstep(c)
    ensures Climbs(c, Input(c, s, now, up))
  {
    hide InSynSent, InSynReceived, InEstablished, InFinWait1, ProcessAck;
    if c.tcp == SynSent || c.tcp == SynReceived {
      OpeningClimbs(c, s, now, up);
    } else if c.tcp == Established {
      EstablishedClimbs(c, s, now, up);
    } else if c.tcp == FinWait1 {
      FinWait1Climbs(c, s, now, up);
    } else if c.tcp == CloseWait {
      AckClimbs(c, s.ackNum, now);
    } else if c.tcp == FinWait2 {
      TimeWaitEntered(c.(retx := At(now + TIME_WAIT)), s, up);
      hide EnterTimeWait;
    }
  }

  lemma StepClimbs(c: Conn, e: Event)
    requires Sound(c) && Lockstep(c)
    ensures Climbs(c, Step(c, e))
  {
    hide Input, Tick, Output;
    match e {
      case Arrive(seg, now, up) => ArriveClimbs(c, seg, now, up);
      case Timer(now, up) => TimerClimbs(c, now, up);
      case Send(data, now, up) => OutputFrame(Extended(c, data), now, up);
      case Nudge(now, up) => OutputFrame(c, now, up);
      case Recv(max) =>
      case Shut(up) =>
    }
  }

  lemma TimerClimbs(c: Conn, now: int, up: bool)
    requires Sound(c) && Lockstep(c)
    ensures Climbs(c, Tick(c, now, up))
  {
    OutputFrame(Rewind(c, now), now, up);
  }

  // ---------------------------------------------------------------- ends

  /** The segments that open a connection: in SYN-SENT any SYN with an acknowledgment, in SYN-RECEIVED any
      acknowledgment that is no reset. The number acknowledged is not looked at; after an active open sending goes on
      from it. */
  lemma OpensExactly(c: Conn, s: Segment, now: int, up: bool)
    requires Sound(c) && (c.tcp == SynSent || c.tcp == SynReceived)
    ensures var d := Input(c, s, now, up);
            && (d.tcp == Established <==>
                  s.flags.ack && if c.tcp == SynSent then s.flags.syn else !s.flags.rst)
            && (d.tcp == Established ==>
                  && d.sock == Connected && d.tx == c.tx && d.rx == c.rx
                  && d.seqNum == (if c.tcp == SynSent then s.ackNum else c.seqNum)
                  && d.ackNum == (if c.tcp == SynSent then Add32(s.seqNum, 1) else c.ackNum))
  {
    assert Add32(s.ackNum, 0) == s.ackNum;
    hide Add32;
  }

  /** The segments that end an incarnation: a reset before the FINs, and the acknowledgment in LAST-ACK. */
  lemma EndsExactly(c: Conn, s: Segment, now: int, up: bool)
    requires Sound(c) && c.tcp != NoTcp
    ensures var d := Input(c, s, now, up);
            && (d.tcp == NoTcp <==>
                  || (s.flags.rst && (c.tcp == Established || c.tcp == SynReceived))
                  || (s.flags.rst && c.tcp == SynSent && !(s.flags.syn && s.flags.ack))
                  || (s.flags.ack && c.tcp == LastAck))
            && (d.tcp == NoTcp ==> d.sock == Closed)
  {
    hide InEstablished, ProcessAck, Add32;
    if c.tcp == Established {
      EstablishedEnds(c, s, now, up);
    }
    AckClimbs(c, s.ackNum, now);
  }

  lemma EstablishedEnds(c: Conn, s: Segment, now: int, up: bool)
    requires Sound(c) && c.tcp == Established
    ensures var d := InEstablished(c, s, now, up);
            (d.tcp == NoTcp <==> s.flags.rst) && (s.flags.rst ==> d.sock == Closed)
  {
    AckClimbs(c, s.ackNum, now);
    AckSound(c, s.ackNum, now);
    var c2 := TakeData(TakeAck(c, s, now), s, up);
    assert c2.tcp == Established && |c2.rx| <= SIZE;
  }

  /** The way through FIN-WAIT: which segment acknowledges our FIN, which one brings the peer's, and its answer. */
  lemma ClosesExactly(c: Conn, s: Segment, now: int, up: bool)
    requires Sound(c) && (c.tcp == FinWait1 || c.tcp == FinWait2)
    ensures var d, acked := Input(c, s, now, up), c.finSent && s.flags.ack && s.ackNum == c.seqNum;
            && (d.tcp == TimeWait <==>
                  s.flags.fin && if c.tcp == FinWait2 then s.seqNum == c.ackNum
                                 else acked || (!c.finAcked && s.seqNum == c.ackNum))
            && (d.tcp == FinWait2 <==> if c.tcp == FinWait1 then acked && !s.flags.fin else d.tcp != TimeWait)
            && (d.tcp == TimeWait ==>
                  d.sent == c.sent + if up
                                     then [Segment(c.seqNum, Add32(s.seqNum, 1), ACK, SIZE - |c.rx|, MAX_SEG, [])]
                                     else [])
  {
    if c.tcp == FinWait1 {
      var c1 := if s.flags.ack then ProcessAck(c, s.ackNum, now) else c;
      assert c1.seqNum == c.seqNum && c1.finSent == c.finSent && c1.ackNum == c.ackNum && c1.finAcked == c.finAcked;
      assert c1.sent == c.sent && c1.rx == c.rx && c1.tcp == FinWait1;
      hide ProcessAck, Add32;
    } else {
      hide Add32;
    }
  }

  /** Close with everything acknowledged, then the acknowledgment of its FIN and the peer's FIN: through FIN-WAIT-2 into
      TIME-WAIT when this side closes first, and the end when the peer did. */
  lemma OrderlyClose(c: Conn, ack: Segment, fin: Segment, now: int)
    requires Sound(c) && c.tx == [] && ack.flags == ACK && ack.ackNum == Add32(c.seqNum, 1)
    requires fin.flags == FIN_ACK && fin.seqNum == c.ackNum
    ensures c.tcp == Established ==>
              var d := Close(c, true);
              && d.tcp == FinWait1 && d.sock == Closing && Sound(d)
              && var e := Input(d, ack, now, true);
                 && e.tcp == FinWait2 && Sound(e)
                 && var f := Input(e, fin, now, true);
                    && f.tcp == TimeWait && f.sock == Closing && f.retx == At(now + TIME_WAIT)
                    && f.ackNum == Add32(c.ackNum, 1) && f.seqNum == Add32(c.seqNum, 1)
    ensures c.tcp == CloseWait ==>
              var d := Close(c, true);
              && d.tcp == LastAck && d.sock == Closing && Sound(d)
              && Input(d, ack, now, true).tcp == NoTcp && Input(d, ack, now, true).sock == Closed
  {
    assert Add32(Add32(c.seqNum, 1), 0) == Add32(c.seqNum, 1);
    hide Add32, InEstablished;
  }

  /** TIME-WAIT lasts its two seconds after FIN-WAIT-2. Reached from FIN-WAIT-1 with no timer running, as it does not
      while the ring is empty, it ends at the first poll. */
  lemma TimeWaitExact(c: Conn, s: Segment, now: int, up: bool, later: int, again: bool)
    requires Sound(c) && Input(c, s, now, up).tcp == TimeWait
    ensures var d := Input(c, s, now, up);
            && |d.rx| <= SIZE
            && (c.tcp == FinWait2 ==> (Tick(d, later, again).tcp == NoTcp <==> later > now + TIME_WAIT))
            && (c.tcp == FinWait1 && c.tx == [] && c.retx == Unset ==> Tick(d, later, again).tcp == NoTcp)
  {
    InputSound(c, s, now, up);
    hide Output, InEstablished, Add32;
  }

  // ---------------------------------------------------------------- all calls

  /** Listen is called only on a socket that is new, bound or already listening. */
  ghost predicate Disciplined(c: Conn, ks: seq<Call>)
    requires Sound(c)
    decreases |ks|
  {
    ks == [] || (
      && (ks[0].Listen? ==> c.sock in {Free, Bound, Listening})
      && (DoSound(c, ks[0]); Disciplined(Do(c, ks[0]), ks[1..])))
  }

  lemma DoSound(c: Conn, k: Call)
    requires Sound(c)
    ensures Sound(Do(c, k))
  {
    if k.Traffic? {
      StepSound(c, k.e);
    }
  }

  ghost function RunCalls(c: Conn, ks: seq<Call>): (d: Conn)
    requires Sound(c)
    ensures Sound(d)
    decreases |ks|
  {
    if ks == [] then c else (DoSound(c, ks[0]); RunCalls(Do(c, ks[0]), ks[1..]))
  }

  lemma DoLockstep(c: Conn, k: Call)
    requires Sound(c) && Lockstep(c)
    ensures k.Listen? && c.sock != Free ==> (Lockstep(Do(c, k)) <==> c.tcp == NoTcp)
    ensures !k.Listen? || c.sock == Free ==> Lockstep(Do(c, k))
  {
    if k.Traffic? {
      StepClimbs(c, k.e);
    }
  }

  /** In every run in which Listen follows Socket or Bind, the two machines stay in lockstep. */
  lemma {:induction false} AlwaysLockstep(c: Conn, ks: seq<Call>)
    requires Sound(c) && Lockstep(c) && Disciplined(c, ks)
    ensures Lockstep(RunCalls(c, ks))
    decreases |ks|
  {
    if ks == [] {
    } else {
      DoLockstep(c, ks[0]);
      DoSound(c, ks[0]);
      AlwaysLockstep(Do(c, ks[0]), ks[1..]);
    }
  }

  // ---------------------------------------------------------------- bounds

  /** How often the TCP state changes in a run of traffic. */
  ghost function Changes(c: Conn, es: seq<Event>): nat
    requires Sound(c)
    decreases |es|
  {
    if es == [] then 0
    else (StepSound(c, es[0]);
          Bit(Step(c, es[0]).tcp != c.tcp) + Changes(Step(c, es[0]), es[1..]))
  }

  /** An incarnation changes its TCP state at most five times, whatever arrives. */
  lemma {:induction false} BoundedChanges(c: Conn, es: seq<Event>)
    requires Sound(c) && Lockstep(c)
    ensures Lockstep(Run(c, es))
    ensures Changes(c, es) + Rank(c.tcp) <= Rank(Run(c, es).tcp) <= 5
    decreases |es|
  {
    if es == [] {
    } else {
      StepSound(c, es[0]);
      StepClimbs(c, es[0]);
      BoundedChanges(Step(c, es[0]), es[1..]);
    }
  }

  /** A step that acknowledges new data, or ends the incarnation. */
  ghost predicate Forward(c: Conn, d: Conn) {
    |d.dropped| > |c.dropped| || d.sock == Free
  }

  /** The timer retransmissions since the last forward acknowledgment, given how many there were before. */
  ghost function Burst(c: Conn, es: seq<Event>, before: nat): nat
    requires Sound(c)
    decreases |es|
  {
    if es == [] then before
    else
      StepSound(c, es[0]);
      var d := Step(c, es[0]);
      Burst(d, es[1..],
            if Forward(c, d) then 0
            else if es[0].Timer? && Retransmits(c, es[0].now) then before + 1
            else before)
  }

  lemma AckCounts(c: Conn, ackNum: u32, now: int)
    requires Sound(c)
    ensures var d := ProcessAck(c, ackNum, now);
            d.retxCount >= c.retxCount || |d.dropped| > |c.dropped|
  {
  }

  lemma EstablishedCounts(c: Conn, s: Segment, now: int, up: bool)
    requires Sound(c)
    ensures var d := InEstablished(c, s, now, up);
            d.retxCount >= c.retxCount || |d.dropped| > |c.dropped|
  {
    AckCounts(c, s.ackNum, now);
    AckSound(c, s.ackNum, now);
    var c1 := TakeAck(c, s, now);
    var c2 := TakeData(c1, s, up);
    assert SameState(c1, c2) && c2.dropped == c1.dropped && |c2.rx| <= SIZE;
    var c3 := TakeFin(c2, s, up);
    assert c3.retxCount == c2.retxCount && c3.dropped == c2.dropped;
  }

  lemma FinWait1Counts(c: Conn, s: Segment, now: int, up: bool)
    requires Sound(c)
    ensures var d := InFinWait1(c, s, now, up);
            d.retxCount >= c.retxCount || |d.dropped| > |c.dropped|
  {
    AckCounts(c, s.ackNum, now);
  }

  lemma StepCounts(c: Conn, e: Event)
    requires Sound(c)
    ensures var d := Step(c, e);
            Forward(c, d) || d.retxCount >= c.retxCount + Bit(e.Timer? && Retransmits(c, e.now))
  {
    match e {
      case Arrive(s, now, up) => ArriveCounts(c, s, now, up);
      case Timer(now, up) => OutputFrame(Rewind(c, now), now, up);
      case Send(data, now, up) => OutputFrame(Extended(c, data), now, up);
      case Nudge(now, up) => OutputFrame(c, now, up);
      case Recv(max) =>
      case Shut(up) =>
    }
  }

  lemma ArriveCounts(c: Conn, s: Segment, now: int, up: bool)
    requires Sound(c)
    ensures var d := Input(c, s, now, up);
            d.retxCount >= c.retxCount || |d.dropped| > |c.dropped|
  {
    if c.tcp == Established {
      EstablishedCounts(c, s, now, up);
    } else if c.tcp == FinWait1 {
      FinWait1Counts(c, s, now, up);
    } else if c.tcp == CloseWait {
      AckCounts(c, s.ackNum, now);
    } else if c.tcp == SynSent {
      assert Input(c, s, now, up) == InSynSent(c, s, up);
    } else if c.tcp == FinWait2 {
      assert Input(c, s, now, up) == InFinWait2(c, s, now, up);
    }
  }

  /** Between two forward acknowledgments the timer retransmits at most eight times. */
  lemma {:induction false} AtMostEightRetransmissions(c: Conn, es: seq<Event>, before: nat)
    requires Sound(c) && Lockstep(c) && before <= c.retxCount
    ensures Burst(c, es, before) <= Run(c, es).retxCount <= MAX_RETX
    decreases |es|
  {
    if es == [] {
    } else {
      StepSound(c, es[0]);
      StepClimbs(c, es[0]);
      StepCounts(c, es[0]);
      var d := Step(c, es[0]);
      AtMostEightRetransmissions(d, es[1..],
        if Forward(c, d) then 0
        else if es[0].Timer? && Retransmits(c, es[0].now) then before + 1
        else before);
    }
  }
}
