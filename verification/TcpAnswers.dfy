/** What an arriving segment is answered with, and what of its header is taken over (section 3.10.7.4 of RFC 9293). */
module TcpAnswers {
  import opened Words
  import opened Rings
  import opened Tcp
  import opened TcpReceive

  /** A bare acknowledgment. */
  function AckWith(seqNum: u32, ackNum: u32, room: u16): Segment {
    Segment(seqNum, ackNum, ACK, room, MAX_SEG, [])
  }

  /** How much of a segment's text goes into the ring. */
  function Taken(c: Conn, s: Segment): (n: nat)
    requires |c.rx| <= SIZE
    ensures n <= |s.data| && |c.rx| + n <= SIZE
  {
    if s.seqNum == c.ackNum then Min(|s.data|, SIZE - |c.rx|) else 0
  }

  /** Its FIN stands behind everything taken. */
  predicate Ends(c: Conn, s: Segment)
    requires |c.rx| <= SIZE
  {
    s.flags.fin && Add32(s.seqNum, |s.data|) == Add32(c.ackNum, Taken(c, s))
  }

  /** One acknowledgment of what was taken for text at the receive point, even if there was no room for it, one of the
      FIN for a FIN behind everything taken, and nothing for any other segment. */
  ghost predicate Answers(c: Conn, d: Conn, s: Segment, up: bool)
    requires |c.rx| <= SIZE
  {
    var n := Taken(c, s);
    var room := SIZE - |c.rx| - n;
    && d.accepted == c.accepted + s.data[..n] && |d.rx| == |c.rx| + n
    && (d.finRecvd <==> c.finRecvd || Ends(c, s))
    && d.sent == c.sent
                 + (if up && s.data != [] && s.seqNum == c.ackNum
                    then [AckWith(c.seqNum, Add32(c.ackNum, n), room)] else [])
                 + (if up && Ends(c, s)
                    then [AckWith(c.seqNum, Add32(c.ackNum, n + 1), room)] else [])
  }

  lemma AnswersExactly(c: Conn, s: Segment, now: int, up: bool)
    requires Sound(c) && c.tcp == Established
    ensures Answers(c, Input(c, s, now, up), s, up)
  {
    SameApartFromAck(c, s, now);
    BothAnswered(c, TakeAck(c, s, now), s, up);
    assert Input(c, s, now, up) == InEstablished(c, s, now, up);
    hide Input, TakeAck, TakeData, TakeFin, Add32, AckWith, Ends;
  }

  lemma BothAnswered(c: Conn, c1: Conn, s: Segment, up: bool)
    requires |c.rx| <= SIZE && c1.rx == c.rx && c1.accepted == c.accepted && c1.ackNum == c.ackNum
    requires c1.seqNum == c.seqNum && c1.sent == c.sent && c1.finRecvd == c.finRecvd
    ensures |TakeData(c1, s, up).rx| <= SIZE && Answers(c, TakeFin(TakeData(c1, s, up), s, up), s, up)
  {
    TextAnswered(c1, s, up);
    FinAnswered(TakeData(c1, s, up), s, up);
    assert Add32(Add32(c.ackNum, Taken(c, s)), 1) == Add32(c.ackNum, Taken(c, s) + 1);
    hide TakeData, TakeFin, Add32, AckWith;
  }

  lemma SameApartFromAck(c: Conn, s: Segment, now: int)
    ensures var d := TakeAck(c, s, now);
            && d.rx == c.rx && d.accepted == c.accepted && d.ackNum == c.ackNum && d.seqNum == c.seqNum
            && d.sent == c.sent && d.tcp == c.tcp && d.finRecvd == c.finRecvd && d.mss == c.mss
            && (s.flags.ack ==> d.remoteWin == s.window)
  {
  }

  lemma TextAnswered(c: Conn, s: Segment, up: bool)
    requires |c.rx| <= SIZE
    ensures var d, n := TakeData(c, s, up), Taken(c, s);
            && d.accepted == c.accepted + s.data[..n] && d.ackNum == Add32(c.ackNum, n) && d.seqNum == c.seqNum
            && |d.rx| == |c.rx| + n && d.tcp == c.tcp && d.finRecvd == c.finRecvd
            && d.sent == c.sent + if up && s.data != [] && s.seqNum == c.ackNum
                                  then [AckWith(c.seqNum, Add32(c.ackNum, n), SIZE - |c.rx| - n)] else []
  {
    assert Add32(c.seqNum, 0) == c.seqNum && Add32(c.ackNum, 0) == c.ackNum;
    hide Add32;
  }

  lemma FinAnswered(c: Conn, s: Segment, up: bool)
    requires |c.rx| <= SIZE
    ensures var d, fin := TakeFin(c, s, up), s.flags.fin && Add32(s.seqNum, |s.data|) == c.ackNum;
            && d.accepted == c.accepted && d.rx == c.rx && d.tx == c.tx && (d.finRecvd <==> c.finRecvd || fin)
            && d.sent == c.sent + if up && fin
                                  then [AckWith(c.seqNum, Add32(c.ackNum, 1), SIZE - |c.rx|)] else []
  {
    assert Add32(c.seqNum, 0) == c.seqNum;
    hide Add32;
  }

  /** From c to d the peer's segment was answered if and only if it brought text, or the FIN, at the receive point; and
      the last answer acknowledges everything accepted, and the FIN if it was taken. */
  ghost predicate Answered(c: Conn, d: Conn, p: PeerSegment, irs: u32, stream: seq<byte>)
    requires p.PeerText?
  {
    && c.sent <= d.sent && d.accepted <= stream && |d.rx| <= SIZE
    && (d.sent != c.sent <==> (p.data != [] && p.offset == |c.accepted|)
                              || (p.flags.fin && |stream| == |c.accepted|))
    && (d.finRecvd <==> p.flags.fin && d.accepted == stream)
    && (d.sent != c.sent ==>
          d.sent[|d.sent| - 1] == AckWith(c.seqNum, SeqAt(irs, |d.accepted| + Bit(d.finRecvd)), SIZE - |d.rx|))
  }

  /** Over every honest run. So once an answer is lost, repeating the segment gets no other. */
  lemma AnswersInOrder(c0: Conn, xs: seq<Happening>, irs: u32, stream: seq<byte>, p: PeerSegment, now: int)
    requires Sound(c0) && InStep(c0, irs, stream) && Honest(c0, xs, irs, stream)
    requires var c := Run(c0, Events(xs, irs));
             c.tcp == Established && p.PeerText? && Agrees(p, stream) && Recent(p, |c.accepted|)
    ensures var c := Run(c0, Events(xs, irs));
            Answered(c, Input(c, OnWire(p, irs), now, true), p, irs, stream)
  {
    RunInStep(c0, xs, irs, stream);
    hide Run, Honest, Input, Answers, Answered, InStep, Agrees, Recent;
    var c := Run(c0, Events(xs, irs));
    AnswersExactly(c, OnWire(p, irs), now, true);
    AnswersInStep(c, Input(c, OnWire(p, irs), now, true), irs, stream, p);
  }

  lemma AnswersInStep(c: Conn, d: Conn, irs: u32, stream: seq<byte>, p: PeerSegment)
    requires Sound(c) && c.tcp == Established && InStep(c, irs, stream)
    requires p.PeerText? && Agrees(p, stream) && Recent(p, |c.accepted|) && Answers(c, d, OnWire(p, irs), true)
    ensures Answered(c, d, p, irs, stream)
  {
    EndsInStep(c, irs, stream, p);
    var n := Taken(c, OnWire(p, irs));
    SeqAdvance(irs, |c.accepted|, n);
    SeqAdvance(irs, |c.accepted|, n + 1);
    if p.offset == |c.accepted| {
      assert c.accepted + p.data[..n] == stream[..|c.accepted| + n];
    }
    hide SeqAt, Add32, Ends;
  }

  lemma EndsInStep(c: Conn, irs: u32, stream: seq<byte>, p: PeerSegment)
    requires Sound(c) && c.tcp == Established && InStep(c, irs, stream)
    requires p.PeerText? && Agrees(p, stream) && Recent(p, |c.accepted|)
    ensures var s := OnWire(p, irs);
            && (s.seqNum == c.ackNum <==> p.offset == |c.accepted|)
            && (Ends(c, s) <==> p.flags.fin && |c.accepted| + Taken(c, s) == |stream|)
  {
    var s := OnWire(p, irs);
    if s.seqNum == c.ackNum {
      SeqInjective(irs, p.offset, |c.accepted|);
    }
    SeqAdvance(irs, p.offset, |p.data|);
    SeqAdvance(irs, |c.accepted|, Taken(c, s));
    if Add32(s.seqNum, |s.data|) == Add32(c.ackNum, Taken(c, s)) {
      SeqInjective(irs, p.offset + |p.data|, |c.accepted| + Taken(c, s));
    }
    hide SeqAt, Add32;
  }

  // ---------------------------------------------------------------- window and segment size

  /** Connect sends its SYN and repeats it until it is answered. */
  lemma SynRepeated(c: Conn, isn: u32, now: int, later: int)
    requires |c.rx| <= SIZE && c.retxCount < MAX_RETX && later > now + RETX_TIMEOUT
    ensures var syn := Segment(isn, 0, SYN, SIZE - |c.rx|, MAX_SEG, []);
            var d := Connect(c, isn, now, true);
            && d.tcp == SynSent && d.sock == Connecting && d.sndUna == isn && d.seqNum == Add32(isn, 1)
            && d.sent == c.sent + [syn] && |d.rx| <= SIZE
            && Tick(d, now + RETX_TIMEOUT, true) == d && Tick(d, later, true).sent == c.sent + [syn, syn]
  {
    var d := Connect(c, isn, now, true);
    SynAgain(d, later);
    var syn := Segment(isn, 0, SYN, SIZE - |c.rx|, MAX_SEG, []);
    assert c.sent + [syn] + [syn] == c.sent + [syn, syn];
    hide Add32, Pow2, Output;
  }

  lemma SynAgain(c: Conn, now: int)
    requires |c.rx| <= SIZE && c.tcp == SynSent && Retransmits(c, now)
    ensures Tick(c, now, true).sent == c.sent + [Segment(c.sndUna, c.ackNum, SYN, SIZE - |c.rx|, MAX_SEG, [])]
  {
    hide Add32, Pow2;
  }

  /** A listener answers a SYN once: no timer runs, so an answer that is lost is never repeated, and a repeated SYN
      does not bring another one. */
  lemma SynAckNotRepeated(sent: seq<Segment>, irs: u32, isn: u32, mss: u16, again: Segment, now: int, up: bool)
    requires !again.flags.ack && !again.flags.rst
    ensures var c := Spawn(sent, irs, isn, mss, true);
            && c.tcp == SynReceived && c.seqNum == Add32(isn, 1) && c.mss == mss
            && c.sent == sent + [Segment(isn, Add32(irs, 1), SYN_ACK, SIZE, MAX_SEG, [])]
            && Tick(c, now, up) == c && Input(c, again, now, up) == c
  {
    hide Add32;
  }

  lemma HandshakeDone(c: Conn, s: Segment, now: int)
    requires Sound(c) && c.tcp == SynSent && s.flags.syn && s.flags.ack
    ensures var d := Input(c, s, now, true);
            && d.tcp == Established && d.sock == Connected && d.tx == c.tx
            && d.remoteWin == s.window && d.mss == s.mss
            && d.sent == c.sent + [AckWith(s.ackNum, Add32(s.seqNum, 1), SIZE - |c.rx|)]
  {
    assert Add32(s.ackNum, 0) == s.ackNum;
    hide Add32;
  }

  /** The answer to a SYN is acknowledged, and the first text written is cut to the window and the segment size that
      answer announced. */
  lemma FirstText(c: Conn, s: Segment, data: seq<byte>, t0: int, t1: int)
    requires Sound(c) && c.tcp == SynSent && c.tx == [] && s.flags.syn && s.flags.ack
    ensures var d := Input(c, s, t0, true);
            && d.tcp == Established && d.sock == Connected && Sound(d)
            && d.sent == c.sent + [AckWith(s.ackNum, Add32(s.seqNum, 1), SIZE - |c.rx|)]
            && TextGoes(d, Write(d, data, t1, true), data[..Min(|data|, SIZE)], s.window, s.mss)
  {
    InputSound(c, s, t0, true);
    HandshakeDone(c, s, t0);
    var d := Input(c, s, t0, true);
    hide Input, Write, TextGoes, AckWith, Add32, Sound;
    TextWritten(d, data, t1);
  }

  lemma TextWritten(c: Conn, data: seq<byte>, now: int)
    requires Sound(c) && (c.tcp == Established || c.tcp == CloseWait) && c.tx == []
    ensures TextGoes(c, Write(c, data, now, true), data[..Min(|data|, SIZE)], c.remoteWin, c.mss)
  {
    hide Output, TextGoes;
    var e := Extended(c, data);
    assert e.tx == data[..Min(|data|, SIZE)] && e.dropped + e.tx == e.written;
    TextCut(e, now);
    TextFrom(c, e, Output(e, now, true), e.tx, c.remoteWin, c.mss);
  }

  lemma TextFrom(c: Conn, e: Conn, d: Conn, bytes: seq<byte>, window: u16, mss: u16)
    requires e.sent == c.sent && e.seqNum == c.seqNum && e.ackNum == c.ackNum && e.rx == c.rx
    requires TextGoes(e, d, bytes, window, mss)
    ensures TextGoes(c, d, bytes, window, mss)
  {
  }

  /** From c to d one segment was sent at seqNum: the first of these bytes, as many as window, segment size and
      1460 allow. */
  ghost predicate TextGoes(c: Conn, d: Conn, bytes: seq<byte>, window: u16, mss: u16) {
    var n := Min(Min(Min(window, mss), MAX_SEG), |bytes|);
    && |c.rx| <= SIZE && d.seqNum == Add32(c.seqNum, n)
    && d.sent == c.sent + [Segment(c.seqNum, c.ackNum, ACK.(psh := n > 0), SIZE - |c.rx|, MAX_SEG, bytes[..n])]
  }

  lemma TextCut(c: Conn, now: int)
    requires Sound(c) && (c.tcp == Established || c.tcp == CloseWait)
    ensures TextGoes(c, Output(c, now, true), c.tx, c.remoteWin, c.mss)
  {
  }

  /** The window the next output obeys is that of the acknowledgment just taken, but only before the peer's FIN: an
      acknowledgment in CLOSE-WAIT leaves the old one. */
  lemma WindowObeyed(c: Conn, s: Segment, t0: int, up: bool, t1: int)
    requires Sound(c) && (c.tcp == Established || c.tcp == CloseWait) && !(c.tcp == Established && s.flags.rst)
    ensures var d := Input(c, s, t0, up);
            && Sound(d)
            && TextGoes(d, Output(d, t1, true), d.tx,
                        if c.tcp == Established && s.flags.ack then s.window else c.remoteWin, c.mss)
  {
    InputSound(c, s, t0, up);
    var d := Input(c, s, t0, up);
    WindowTaken(c, s, t0, up);
    hide Input, Output, TextGoes;
    TextCut(d, t1);
  }

  lemma WindowTaken(c: Conn, s: Segment, now: int, up: bool)
    requires Sound(c) && (c.tcp == Established || c.tcp == CloseWait) && !(c.tcp == Established && s.flags.rst)
    ensures var d := Input(c, s, now, up);
            && (d.tcp == Established || d.tcp == CloseWait) && d.mss == c.mss
            && d.remoteWin == if c.tcp == Established && s.flags.ack then s.window else c.remoteWin
  {
    if c.tcp == Established {
      var c1 := TakeAck(c, s, now);
      SameApartFromAck(c, s, now);
      BothAnswered(c, c1, s, up);
      assert Input(c, s, now, up) == InEstablished(c, s, now, up);
      var c2 := TakeData(c1, s, up);
      assert c2.tcp == c1.tcp && c2.remoteWin == c1.remoteWin && c2.mss == c1.mss;
      hide Input, TakeAck, TakeData;
    }
  }
}
