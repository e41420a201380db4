/** The retransmission timer runs while bytes are unacknowledged (section 5 of RFC 6298). */
module TcpTimer {
  import opened Words
  import opened Rings
  import opened Tcp
  import opened TcpEndToEnd

  /** Nothing waits for an acknowledgment without a timer, and nothing is written before the connection is open. */
  ghost predicate Watched(c: Conn) {
    && (Open(c) && c.tx != [] ==> c.retx.At?)
    && (c.tcp == SynSent || c.tcp == SynReceived ==> c.tx == [])
  }

  /** Text written to an empty ring goes out: the next hop is known and the peer has announced a window. */
  predicate GoesOut(c: Conn, e: Event) {
    e.Send? ==>
      && c.tcp != SynSent && c.tcp != SynReceived
      && (Open(c) && c.tx == [] && e.data != [] ==> e.up && c.remoteWin > 0 && c.mss > 0)
  }

  lemma AckWatched(c: Conn, ackNum: u32, now: int)
    requires Watched(c)
    ensures var d := ProcessAck(c, ackNum, now); Watched(d) && d.tcp == c.tcp && d.rx == c.rx
    ensures var n := AsInt(Sub32(ackNum, c.sndUna));
            0 < n < |c.tx| ==> ProcessAck(c, ackNum, now).retx == At(now + RETX_TIMEOUT)
  {
  }

  lemma EstablishedWatched(c: Conn, s: Segment, now: int, up: bool)
    requires Sound(c) && c.tcp == Established
    ensures var d, k := InEstablished(c, s, now, up), TakeAck(c, s, now);
            d.tx == k.tx && d.retx == k.retx && (Open(d) || d.tcp == NoTcp)
  {
    TakeAckActs(c, s, now);
    var c1 := TakeAck(c, s, now);
    var c2 := TakeData(c1, s, up);
    DataActs(c, c1, s, up);
    assert c2.tx == c1.tx && c2.retx == c1.retx;
    hide TakeAck, TakeData, OnlyAcks;
  }

  lemma InputWatched(c: Conn, s: Segment, now: int, up: bool)
    requires Sound(c) && Watched(c)
    ensures Watched(Input(c, s, now, up))
  {
    hide InEstablished, ProcessAck;
    AckWatched(c, s.ackNum, now);
    if c.tcp == Established {
      EstablishedWatched(c, s, now, up);
    }
  }

  /** An acknowledgment that leaves bytes in the ring restarts the timer. */
  lemma PartialAckRearms(c: Conn, s: Segment, now: int, up: bool)
    requires Sound(c) && Open(c) && s.flags.ack && 0 < AsInt(Sub32(s.ackNum, c.sndUna)) < |c.tx|
    ensures Input(c, s, now, up).retx == At(now + RETX_TIMEOUT) && Input(c, s, now, up).retxCount == 0
  {
    if c.tcp == Established {
      EstablishedWatched(c, s, now, up);
    }
  }

  lemma OutputWatched(c: Conn, now: int, up: bool)
    requires |c.rx| <= SIZE && |c.tx| <= SIZE
    ensures Watched(c) ==> Watched(Output(c, now, up))
    ensures Open(c) && c.tx != [] && up && c.remoteWin > 0 && c.mss > 0 ==> Output(c, now, up).retx.At?
  {
    hide Add32;
  }

  lemma StepWatched(c: Conn, e: Event)
    requires Sound(c) && Watched(c) && GoesOut(c, e)
    ensures Watched(Step(c, e))
  {
    hide Input, Output;
    match e {
      case Arrive(seg, now, up) => InputWatched(c, seg, now, up);
      case Timer(now, up) =>
        OutputFrame(Rewind(c, now), now, up);
        OutputWatched(Rewind(c, now), now, up);
      case Send(data, now, up) =>
        OutputFrame(Extended(c, data), now, up);
        OutputWatched(Extended(c, data), now, up);
      case Nudge(now, up) =>
        OutputFrame(c, now, up);
        OutputWatched(c, now, up);
      case _ =>
    }
  }

  ghost predicate AllGoOut(c: Conn, es: seq<Event>)
    requires Sound(c)
    decreases |es|
  {
    es == [] || (GoesOut(c, es[0]) && (StepSound(c, es[0]); AllGoOut(Step(c, es[0]), es[1..])))
  }

  /** Over every run, whatever arrives and whatever is lost: an open connection with bytes in its ring has a running
      timer, as long as text written to an empty ring goes out. */
  lemma {:induction false} RunWatched(c: Conn, es: seq<Event>)
    requires Sound(c) && Watched(c) && AllGoOut(c, es)
    ensures Watched(Run(c, es))
    decreases |es|
  {
    if es == [] {
    } else {
      StepSound(c, es[0]);
      StepWatched(c, es[0]);
      hide Step, Watched, GoesOut;
      RunWatched(Step(c, es[0]), es[1..]);
    }
  }

  /** That condition is exact: text written to an empty ring while the next hop is unknown or the window is closed
      gets no timer, and nothing sends it but another call. */
  lemma ArmedExactly(c: Conn, data: seq<byte>, now: int, up: bool)
    requires Sound(c) && Open(c) && c.tx == [] && c.retx == Unset && data != []
    ensures var d := Write(c, data, now, up);
            && Open(d) && d.tx != []
            && (d.retx.At? <==> up && c.remoteWin > 0 && c.mss > 0)
            && (d.retx == Unset ==> d.sndUna == c.sndUna && forall later, again :: Tick(d, later, again) == d)
  {
    hide Add32;
  }

  /** Eight retransmissions wait 2, 4, ... and 256 seconds for an answer; then the connection is given up. */
  lemma BacksOff(c: Conn, now: int, up: bool)
    requires Sound(c) && c.tcp != NoTcp && c.tcp != TimeWait && c.retx.At? && now > c.retx.ms
    ensures var d := Tick(c, now, up);
            if c.retxCount < MAX_RETX
            then && d.retxCount == c.retxCount + 1 && d.tcp == c.tcp
                 && d.retx == At(now + [2000, 4000, 8000, 16000, 32000, 64000, 128000, 256000][c.retxCount])
            else d.tcp == NoTcp && d.sock == Closed && d.sent == c.sent
  {
    Powers();
    OutputFrame(Rewind(c, now), now, up);
    KeepsTimer(Rewind(c, now), now, up);
    hide Output, Pow2;
  }

  lemma KeepsTimer(c: Conn, now: int, up: bool)
    requires |c.rx| <= SIZE && c.retx.At?
    ensures Output(c, now, up).retx == c.retx
  {
  }

  lemma Powers()
    ensures Pow2(1) == 2 && Pow2(2) == 4 && Pow2(3) == 8 && Pow2(4) == 16
    ensures Pow2(5) == 32 && Pow2(6) == 64 && Pow2(7) == 128 && Pow2(8) == 256
  {
  }
}
