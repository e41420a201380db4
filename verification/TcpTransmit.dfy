/** The transmit side: which stream bytes an acknowledgment drops and which a segment carries
    (section 3.8.1 of RFC 9293). */
module TcpTransmit {
  import opened Words
  import opened Rings
  import opened Tcp

  function Pos(base: u32, n: nat): u32 {
    (base + n) % TWO32
  }

  /** sndUna is the position of the oldest byte in the transmit ring, counted from base. */
  ghost predicate Aligned(c: Conn, base: u32) {
    c.sndUna == Pos(base, |c.dropped|)
  }

  /** The connection is not reset to a free socket during the run. */
  ghost predicate Lives(c: Conn, es: seq<Event>)
    requires Sound(c)
    decreases |es|
  {
    c.sock != Free && (es == [] || (StepSound(c, es[0]); Lives(Step(c, es[0]), es[1..])))
  }

  lemma PosAdvance(base: u32, n: nat, x: u32, k: nat)
    requires k < TWO32 && Sub32(x, Pos(base, n)) == k
    ensures x == Pos(base, n + k)
  {
  }

  lemma PosDistance(base: u32, n: nat, k: nat)
    requires k < TWO32
    ensures Sub32(Pos(base, n + k), Pos(base, n)) == k
  {
  }

  lemma AckAligned(c: Conn, ackNum: u32, base: u32, now: int)
    requires Sound(c) && Aligned(c, base)
    ensures Aligned(ProcessAck(c, ackNum, now), base)
  {
    var acked := AsInt(Sub32(ackNum, c.sndUna));
    if 0 < acked <= |c.tx| {
      PosAdvance(base, |c.dropped|, ackNum, acked);
    }
  }

  ghost predicate SameAcked(c: Conn, d: Conn) {
    d.sndUna == c.sndUna && d.dropped == c.dropped && d.sock == c.sock && d.tcp == c.tcp
  }

  lemma EstablishedAligned(c: Conn, s: Segment, base: u32, now: int, up: bool)
    requires Sound(c) && c.tcp == Established && Aligned(c, base)
    ensures Aligned(InEstablished(c, s, now, up), base) && InEstablished(c, s, now, up).tcp != SynSent
  {
    AckAligned(c, s.ackNum, base, now);
    AckSound(c, s.ackNum, now);
    var c1 := TakeAck(c, s, now);
    var c2 := TakeData(c1, s, up);
    assert SameAcked(c1, c2) && |c2.rx| <= SIZE;
    var c3 := TakeFin(c2, s, up);
    assert c3.sndUna == c2.sndUna && c3.dropped == c2.dropped;
  }

  lemma FinWait1Aligned(c: Conn, s: Segment, base: u32, now: int, up: bool)
    requires Sound(c) && c.tcp == FinWait1 && Aligned(c, base)
    ensures Aligned(InFinWait1(c, s, now, up), base) && InFinWait1(c, s, now, up).tcp != SynSent
  {
    AckAligned(c, s.ackNum, base, now);
  }

  /** The remaining states do not act on acknowledgments of data. */
  lemma QuietStates(c: Conn, s: Segment, now: int, up: bool)
    requires Sound(c)
    requires c.tcp in {NoTcp, SynReceived, FinWait2, LastAck, TimeWait}
    ensures var d := Input(c, s, now, up);
            d.sndUna == c.sndUna && d.dropped == c.dropped && d.tcp != SynSent
  {
    if c.tcp == FinWait2 {
      assert Input(c, s, now, up) == InFinWait2(c, s, now, up);
    } else if c.tcp == SynReceived {
      assert Input(c, s, now, up) == InSynReceived(c, s);
    }
  }

  lemma ArriveAligned(c: Conn, s: Segment, base: u32, now: int, up: bool)
    requires Sound(c) && c.tcp != SynSent && Aligned(c, base)
    ensures Aligned(Input(c, s, now, up), base) && Input(c, s, now, up).tcp != SynSent
  {
    if c.tcp == Established {
      EstablishedAligned(c, s, base, now, up);
    } else if c.tcp == FinWait1 {
      FinWait1Aligned(c, s, base, now, up);
    } else if c.tcp == CloseWait {
      AckAligned(c, s.ackNum, base, now);
    } else {
      QuietStates(c, s, now, up);
    }
  }

  /** Once past the opening SYN, every step keeps the alignment, or frees the socket. */
  lemma StepAligned(c: Conn, e: Event, base: u32)
    requires Sound(c) && c.tcp != SynSent && Aligned(c, base)
    ensures var d := Step(c, e);
            d.sock == Free || (Aligned(d, base) && d.tcp != SynSent)
  {
    match e {
      case Arrive(seg, now, up) => ArriveAligned(c, seg, base, now, up);
      case Timer(now, up) => OutputFrame(Rewind(c, now), now, up);
      case Send(data, now, up) => OutputFrame(Extended(c, data), now, up);
      case Nudge(now, up) => OutputFrame(c, now, up);
      case Recv(max) =>
      case Shut(up) =>
    }
  }

  /** Over every run, sndUna minus the bytes dropped from the ring is constant modulo 2^32, and the ring
      holds exactly the bytes written and not dropped. */
  lemma {:induction false} TransmitAligned(c: Conn, es: seq<Event>, base: u32)
    requires Sound(c) && c.tcp != SynSent && Aligned(c, base) && Lives(c, es)
    ensures var d := Run(c, es);
            Aligned(d, base) && d.tx == d.written[|d.written| - |d.tx|..] && |d.dropped| + |d.tx| == |d.written|
    decreases |es|
  {
    if es == [] {
      assert (c.dropped + c.tx)[|c.dropped|..] == c.tx;
    } else {
      StepSound(c, es[0]);
      StepAligned(c, es[0], base);
      TransmitAligned(Step(c, es[0]), es[1..], base);
    }
  }

  /** The alignment starts when the handshake completes: at the acknowledged number for an active open. */
  lemma ActiveOpenAligned(c: Conn, s: Segment, now: int, up: bool)
    requires Sound(c) && c.tcp == SynSent && c.dropped == [] && s.flags.syn && s.flags.ack
    ensures var d := Input(c, s, now, up);
            d.tcp == Established && Aligned(d, s.ackNum)
  {
  }

  /** For a passive open it starts at the initial sequence number, one below the number byte 0 is sent under. */
  lemma PassiveOpenAligned(sent: seq<Segment>, irs: u32, isn: u32, mss: u16)
    ensures var c := Spawn(sent, irs, isn, mss, true);
            Sound(c) && Aligned(c, isn) && c.seqNum == Pos(isn, 1)
  {
  }

  // ---------------------------------------------------------------- what a segment carries

  ghost function Carried(c: Conn): nat {
    Min(Min(Min(c.remoteWin, c.mss), MAX_SEG), |c.tx|)
  }

  /** The segment emitted at sndUna carries the oldest unacknowledged bytes, within window, MSS and MTU. */
  lemma OldestUnacked(c: Conn, base: u32, now: int)
    requires Sound(c) && Aligned(c, base) && c.seqNum == c.sndUna
    requires c.tcp == Established || c.tcp == CloseWait
    ensures var d := Output(c, now, true);
            |d.sent| == |c.sent| + 1 && d.sent[..|c.sent|] == c.sent
            && var s := d.sent[|c.sent|];
               && s.seqNum == Pos(base, |c.dropped|)
               && s.data == c.written[|c.dropped|..|c.dropped| + Carried(c)]
               && d.seqNum == Pos(base, |c.dropped| + Carried(c))
  {
    assert c.tx[..Carried(c)] == c.written[|c.dropped|..|c.dropped| + Carried(c)] by {
      assert c.written == c.dropped + c.tx;
    }
    assert OutputData(c) == c.tx[..Carried(c)];
    SumPos(base, |c.dropped|, Carried(c));
  }

  lemma SumPos(base: u32, n: nat, k: u32)
    ensures Add32(Pos(base, n), k) == Pos(base, n + k)
  {
  }

  /** Whenever the timer retransmits on an open connection, over any run, it resends the oldest bytes. */
  lemma TimerResendsOldest(c0: Conn, es: seq<Event>, base: u32, now: int)
    requires Sound(c0) && c0.tcp != SynSent && Aligned(c0, base) && Lives(c0, es)
    requires var c := Run(c0, es);
             Retransmits(c, now) && (c.tcp == Established || c.tcp == CloseWait)
    ensures var c := Run(c0, es);
            var d := Tick(c, now, true);
            |d.sent| == |c.sent| + 1
            && d.sent[|c.sent|].seqNum == Pos(base, |c.dropped|)
            && d.sent[|c.sent|].data == c.written[|c.dropped|..|c.dropped| + Carried(c)]
            && d.retxCount == c.retxCount + 1 <= MAX_RETX
  {
    TransmitAligned(c0, es, base);
    OldestUnacked(Rewind(Run(c0, es), now), base, now);
  }

  /** The payload, if there is any, is what the stream has at the segment's sequence number, when the oldest byte
      of the ring is number first. */
  ghost predicate Pairs(c: Conn, tx: seq<byte>, first: u32) {
    var ahead, n := Sub32(c.seqNum, first), Min(MaxSend(c, TCP_HEADER), |tx|);
    n == 0 || (ahead + n <= |tx| && tx[ahead..ahead + n] == tx[..n])
  }

  /** Output always peeks from the tail of the ring. So payload and sequence number belong together,
      whatever the ring holds, if and only if seqNum is the oldest byte's own number (or nothing is sent). After an
      active open that number is sndUna: nothing may be in flight. */
  lemma PairingExact(c: Conn, first: u32)
    requires Sound(c) && (c.tcp == Established || c.tcp == CloseWait)
    ensures (forall tx | |tx| == |c.tx| :: Pairs(c, tx, first)) <==>
            c.seqNum == first || |OutputData(c)| == 0
  {
    var ahead, n := Sub32(c.seqNum, first), |OutputData(c)|;
    if ahead == 0 || n == 0 {
      forall tx | |tx| == |c.tx|
        ensures Pairs(c, tx, first)
      {
      }
    } else {
      var tx: seq<byte> := seq(|c.tx|, i => if i < ahead then 0 else 1);
      assert !Pairs(c, tx, first) by {
        if ahead + n <= |tx| {
          assert tx[ahead..ahead + n][0] != tx[..n][0];
        }
      }
    }
  }

  /** After a passive open the oldest byte's number is one above sndUna, for good. So a retransmission, which starts
      at sndUna, never belongs where it stands, unless it is empty. */
  lemma PassiveRetransmitShifted(c: Conn, isn: u32, now: int)
    requires Sound(c) && Aligned(c, isn) && (c.tcp == Established || c.tcp == CloseWait) && Retransmits(c, now)
    ensures var first := Pos(Add32(isn, 1), |c.dropped|);
            && Rewind(c, now).seqNum == Pos(isn, |c.dropped|) && first == Add32(c.sndUna, 1)
            && ((forall tx | |tx| == |c.tx| :: Pairs(Rewind(c, now), tx, first)) <==>
                  |OutputData(Rewind(c, now))| == 0)
  {
    hide OutputData, Pairs;
    SumPos(isn, |c.dropped|, 1);
    PosShift(isn, |c.dropped|);
    PairingExact(Rewind(c, now), Pos(Add32(isn, 1), |c.dropped|));
  }

  lemma PosShift(base: u32, n: nat)
    ensures Pos(Add32(base, 1), n) == Pos(base, n + 1)
    ensures Pos(base, n) != Pos(base, n + 1)
  {
  }

  /** The family at its smallest: two one-byte writes with no acknowledgment between put the first byte
      into the second byte's place. */
  lemma SecondWriteRepeatsFirst(c: Conn, x: byte, y: byte, now: int)
    requires Sound(c) && c.tcp == Established && c.tx == [] && c.seqNum == c.sndUna
    requires c.remoteWin >= 2 && c.mss >= 2
    ensures var d := Write(Write(c, [x], now, true), [y], now, true);
            |d.sent| == |c.sent| + 2
            && d.sent[|c.sent|].seqNum == c.seqNum && d.sent[|c.sent|].data == [x]
            && d.sent[|c.sent| + 1].seqNum == Add32(c.seqNum, 1) && d.sent[|c.sent| + 1].data == [x, y]
  {
    hide Write;
    var d1 := Write(c, [x], now, true);
    assert c.tx + [x][..1] == [x];
    WriteSends(c, [x], now);
    assert d1.tx + [y][..1] == [x, y];
    WriteSends(d1, [y], now);
  }

  /** A write that fits the ring and the window sends the whole ring at seqNum. */
  lemma WriteSends(c: Conn, data: seq<byte>, now: int)
    requires Sound(c) && c.tcp == Established && |data| > 0
    requires var n := |c.tx| + |data|; n <= SIZE && n <= c.remoteWin && n <= c.mss && n <= MAX_SEG
    ensures var d, all := Write(c, data, now, true), c.tx + data;
            && d.tx == all && d.tcp == c.tcp && d.remoteWin == c.remoteWin && d.mss == c.mss
            && d.seqNum == Add32(c.seqNum, |all|) && d.rx == c.rx
            && |d.sent| == |c.sent| + 1 && d.sent[..|c.sent|] == c.sent
            && d.sent[|c.sent|].seqNum == c.seqNum && d.sent[|c.sent|].data == all
            && Sound(d)
  {
    WriteSound(c, data, now, true);
    assert data[..Written(c, data)] == data;
    var c1 := c.(tx := c.tx + data, written := c.written + data);
    assert c1.tx[..|c1.tx|] == c1.tx;
    assert OutputData(c1) == c1.tx;
  }

  // ---------------------------------------------------------------- what an acknowledgment drops

  /** The acknowledgment of a peer that holds the first r bytes, byte 0 being at sequence number first. */
  function AckFor(first: u32, r: nat): u32 {
    Pos(first, r)
  }

  /** An acknowledgment for r bytes that is acted on leaves exactly r bytes dropped, plus the offset
      between byte 0 and the base: zero after an active open, one after a passive open. */
  lemma DropsExactly(c: Conn, base: u32, delta: nat, r: nat, now: int)
    requires Sound(c) && Aligned(c, base) && delta <= 1
    requires |c.dropped| <= r + delta < |c.dropped| + TWO32
    ensures var d := ProcessAck(c, AckFor(Pos(base, delta), r), now);
            && (|d.dropped| == |c.dropped| || |d.dropped| == r + delta)
            && (|c.dropped| < r + delta <= |c.written| <==> |d.dropped| != |c.dropped|)
  {
    var k := r + delta - |c.dropped|;
    AckPos(base, delta, r);
    PosDistance(base, |c.dropped|, k);
  }

  lemma AckPos(base: u32, delta: nat, r: nat)
    requires delta <= 1
    ensures AckFor(Pos(base, delta), r) == Pos(base, r + delta)
  {
  }

  /** The acknowledgment of everything written empties the ring if and only if the base is byte 0's own
      sequence number. A passive open leaves it one lower, so there the final acknowledgment is ignored. */
  lemma FullAckDrains(c: Conn, base: u32, delta: nat, now: int)
    requires Sound(c) && Aligned(c, base) && delta <= 1 && c.tx != []
    ensures var d := ProcessAck(c, AckFor(Pos(base, delta), |c.written|), now);
            && (d.tx == [] <==> delta == 0)
            && (delta == 1 ==> d == c)
  {
    AckPos(base, delta, |c.written|);
    PosDistance(base, |c.dropped|, |c.tx| + delta);
    assert |c.written| == |c.dropped| + |c.tx|;
  }

  /** After a passive open, an acknowledgment of no data at all drops a byte the peer never received. */
  lemma PassiveOpenDropsUnacked(sent: seq<Segment>, irs: u32, isn: u32, mss: u16, s: Segment,
                                data: seq<byte>, now: int, up: bool)
    requires s.flags == ACK && s.data == [] && s.ackNum == Add32(isn, 1) && |data| > 0
    ensures var c := Input(Spawn(sent, irs, isn, mss, up), s, now, up);
            && c.tcp == Established && c.dropped == [] && Sound(c) && Aligned(c, isn)
            && var w := Write(c, data, now, up);
               && w.tcp == Established && |w.rx| <= SIZE
               && var d := Input(w, s, now, up);
                  d.dropped == data[..1]
  {
    var c := Input(Spawn(sent, irs, isn, mss, up), s, now, up);
    assert c.tcp == Established && c.tx == [] && c.dropped == [] && c.sndUna == isn && c.rx == [];
    PassiveWrite(c, s, data, now, up);
  }

  lemma PassiveWrite(c: Conn, s: Segment, data: seq<byte>, now: int, up: bool)
    requires c.tcp == Established && c.tx == [] && c.dropped == [] && c.rx == [] && |data| > 0
    requires s.flags == ACK && s.data == [] && s.ackNum == Add32(c.sndUna, 1)
    ensures var w := Write(c, data, now, up);
            && w.tcp == Established && |w.rx| <= SIZE
            && Input(w, s, now, up).dropped == data[..1]
  {
    var n := Written(c, data);
    var c1 := Extended(c, data);
    OutputFrame(c1, now, up);
    var w := Write(c, data, now, up);
    assert w.tx == data[..n] && w.rx == [];
    assert AsInt(Sub32(s.ackNum, w.sndUna)) == 1;
    var a := TakeAck(w, s, now);
    assert a.dropped == data[..1];
    assert TakeFin(TakeData(a, s, up), s, up) == a;
  }

  /** Every acknowledgment in the run is for at most held bytes, and not a whole turn old. */
  ghost predicate AcksHeld(c: Conn, es: seq<Event>, base: u32, held: nat)
    requires Sound(c)
    decreases |es|
  {
    es == [] || (
      && (es[0].Arrive? ==> AckHeld(c, es[0].seg, base, held))
      && (StepSound(c, es[0]); AcksHeld(Step(c, es[0]), es[1..], base, held)))
  }

  ghost predicate AckHeld(c: Conn, s: Segment, base: u32, held: nat) {
    exists r: nat :: r <= held && |c.dropped| < r + TWO32 - SIZE && s.ackNum == AckFor(base, r)
  }

  lemma AckDropsHeld(c: Conn, s: Segment, base: u32, held: nat, now: int)
    requires Sound(c) && Aligned(c, base) && AckHeld(c, s, base, held) && |c.dropped| <= held
    ensures |ProcessAck(c, s.ackNum, now).dropped| <= held
  {
    var r: nat :| r <= held && |c.dropped| < r + TWO32 - SIZE && s.ackNum == AckFor(base, r);
    var acked := AsInt(Sub32(s.ackNum, c.sndUna));
    if 0 < acked <= |c.tx| {
      PosAdvance(base, |c.dropped|, s.ackNum, acked);
      SamePos(base, r, |c.dropped| + acked);
    }
  }

  /** Positions less than a turn apart are equal only if they are the same; further behind, they wrap. */
  lemma SamePos(base: u32, r: nat, n: nat)
    requires Pos(base, r) == Pos(base, n) && n < r + TWO32
    ensures n <= r
  {
  }

  lemma ArriveDrops(c: Conn, s: Segment, now: int, up: bool)
    requires Sound(c) && c.tcp != SynSent
    ensures Input(c, s, now, up).dropped == c.dropped
            || Input(c, s, now, up).dropped == ProcessAck(c, s.ackNum, now).dropped
  {
    if c.tcp == Established {
      EstablishedDrops(c, s, now, up);
    } else if c.tcp == FinWait1 {
      FinWait1Drops(c, s, now, up);
    } else if c.tcp != CloseWait {
      QuietStates(c, s, now, up);
    }
  }

  lemma EstablishedDrops(c: Conn, s: Segment, now: int, up: bool)
    requires Sound(c)
    ensures InEstablished(c, s, now, up).dropped == c.dropped
            || InEstablished(c, s, now, up).dropped == ProcessAck(c, s.ackNum, now).dropped
  {
    AckSound(c, s.ackNum, now);
    var c1 := TakeAck(c, s, now);
    var c2 := TakeData(c1, s, up);
    assert c2.dropped == c1.dropped && |c2.rx| <= SIZE;
    assert TakeFin(c2, s, up).dropped == c2.dropped;
  }

  lemma FinWait1Drops(c: Conn, s: Segment, now: int, up: bool)
    requires Sound(c)
    ensures InFinWait1(c, s, now, up).dropped == c.dropped
            || InFinWait1(c, s, now, up).dropped == ProcessAck(c, s.ackNum, now).dropped
  {
  }

  /** When the base is byte 0's own sequence number, no run of acknowledgments the peer can have sent
      ever drops a byte the peer does not hold. */
  lemma {:induction false} NeverDropsUnheld(c: Conn, es: seq<Event>, base: u32, held: nat)
    requires Sound(c) && c.tcp != SynSent && Aligned(c, base) && Lives(c, es)
    requires AcksHeld(c, es, base, held) && |c.dropped| <= held
    ensures |Run(c, es).dropped| <= held
    decreases |es|
  {
    if es == [] {
    } else {
      var e := es[0];
      StepSound(c, e);
      StepAligned(c, e, base);
      match e {
        case Arrive(seg, now, up) =>
          ArriveDrops(c, seg, now, up);
          AckDropsHeld(c, seg, base, held, now);
        case _ => OwnStepDrops(c, e);
      }
      NeverDropsUnheld(Step(c, e), es[1..], base, held);
    }
  }

  lemma OwnStepDrops(c: Conn, e: Event)
    requires Sound(c) && !e.Arrive?
    ensures Step(c, e).dropped == c.dropped || Step(c, e).dropped == []
  {
    match e {
      case Timer(now, up) => OutputFrame(Rewind(c, now), now, up);
      case Send(data, now, up) => OutputFrame(Extended(c, data), now, up);
      case Nudge(now, up) => OutputFrame(c, now, up);
      case _ =>
    }
  }
}
