/** The blocking Send and Recv of stack/api.go: their loops are runs of the connection machine. */
module SocketApi {
  import opened Words
  import opened Rings
  import opened Tcp
  import opened Sockets

  /** One call of Poll made while waiting: the segments it delivers, then the timer; or the device fails. */
  datatype Poll = Poll(arrivals: seq<Segment>, now: int, up: bool, fails: bool)

  /** What one look at the clock and the next hop gives. */
  datatype Reading = Reading(now: int, up: bool)

  datatype Error = NoError | NotConnected | Timeout | Device | EndOfStream

  /** What only Send and Recv themselves change. */
  ghost predicate SameApplication(c: Conn, d: Conn) {
    d.written == c.written && d.taken == c.taken
  }

  lemma AckKeeps(c: Conn, ackNum: u32, now: int)
    ensures SameApplication(c, ProcessAck(c, ackNum, now))
  {
  }

  lemma EstablishedKeeps(c: Conn, s: Segment, now: int, up: bool)
    requires Sound(c)
    ensures SameApplication(c, InEstablished(c, s, now, up))
  {
    AckKeeps(c, s.ackNum, now);
    AckSound(c, s.ackNum, now);
    var c1 := TakeAck(c, s, now);
    var c2 := TakeData(c1, s, up);
    assert SameApplication(c1, c2) && |c2.rx| <= SIZE;
    assert SameApplication(c2, TakeFin(c2, s, up));
  }

  lemma FinWait1Keeps(c: Conn, s: Segment, now: int, up: bool)
    requires Sound(c)
    ensures SameApplication(c, InFinWait1(c, s, now, up))
  {
    AckKeeps(c, s.ackNum, now);
  }

  lemma InputKeeps(c: Conn, s: Segment, now: int, up: bool)
    requires Sound(c)
    ensures SameApplication(c, Input(c, s, now, up))
  {
    if c.tcp == Established {
      EstablishedKeeps(c, s, now, up);
    } else if c.tcp == FinWait1 {
      FinWait1Keeps(c, s, now, up);
    } else if c.tcp == CloseWait {
      AckKeeps(c, s.ackNum, now);
    }
  }

  lemma TickKeeps(c: Conn, now: int, up: bool)
    requires Sound(c)
    ensures SameApplication(c, Tick(c, now, up))
  {
    OutputFrame(Rewind(c, now), now, up);
  }

  /** How many polls a run holds: each ends with the timer. */
  function Polled(es: seq<Event>): nat {
    if es == [] then 0 else Polled(es[..|es| - 1]) + Bit(es[|es| - 1].Timer?)
  }

  lemma PolledMore(es: seq<Event>, e: Event)
    ensures Polled(es + [e]) == Polled(es) + Bit(e.Timer?)
  {
    assert (es + [e])[..|es|] == es;
  }

  /** Send and Recv give up on time only after the last poll, and otherwise on the poll that failed. */
  ghost predicate GaveUp(err: Error, polls: seq<Poll>, es: seq<Event>) {
    && (err == Timeout ==> Polled(es) == |polls|)
    && (err == Device ==> Polled(es) < |polls| && polls[Polled(es)].fails)
  }

  method DoPoll(s: Socket, p: Poll, ghost c0: Conn, ghost es: seq<Event>) returns (ghost fs: seq<Event>)
    requires s.Valid() && Sound(c0) && s.Abs() == Run(c0, es)
    modifies s.Repr()
    ensures s.Valid() && s.Abs() == Run(c0, fs) && Polled(fs) == Polled(es) + 1
    ensures SameApplication(old(s.Abs()), s.Abs())
  {
    hide Run, Input, Tick, Polled;
    fs := es;
    for i := 0 to |p.arrivals|
      invariant s.Valid() && s.Abs() == Run(c0, fs) && Polled(fs) == Polled(es)
      invariant SameApplication(old(s.Abs()), s.Abs())
    {
      ghost var e := Arrive(p.arrivals[i], p.now, p.up);
      InputKeeps(s.Abs(), p.arrivals[i], p.now, p.up);
      RunAppend(c0, fs, e);
      PolledMore(fs, e);
      s.Input(p.arrivals[i], p.now, p.up);
      fs := fs + [e];
    }
    TickKeeps(s.Abs(), p.now, p.up);
    RunAppend(c0, fs, Timer(p.now, p.up));
    PolledMore(fs, Timer(p.now, p.up));
    s.Timer(p.now, p.up);
    fs := fs + [Timer(p.now, p.up)];
  }

  /** Waits for room in the transmit ring, output running after every poll. */
  method AwaitRoom(s: Socket, polls: seq<Poll>, next: nat, ghost c0: Conn, ghost es: seq<Event>)
    returns (k: nat, err: Error, ghost fs: seq<Event>)
    requires s.Valid() && Sound(c0) && s.Abs() == Run(c0, es) && next == Polled(es) <= |polls|
    modifies s.Repr()
    ensures s.Valid() && s.Abs() == Run(c0, fs) && err in {NoError, Timeout, Device}
    ensures k <= |polls| && (err == NoError ==> k == Polled(fs)) && GaveUp(err, polls, fs)
    ensures SameApplication(old(s.Abs()), s.Abs())
    ensures err == NoError <==> |s.Abs().tx| < SIZE
    ensures |old(s.Abs()).tx| < SIZE ==> s.Abs() == old(s.Abs())
  {
    hide Run, Output, Polled;
    k, err, fs := next, NoError, es;
    while s.tx.Free() == 0
      invariant s.Valid() && s.Abs() == Run(c0, fs) && k == Polled(fs) <= |polls| && err == NoError
      invariant SameApplication(old(s.Abs()), s.Abs())
      invariant |old(s.Abs()).tx| < SIZE ==> s.Abs() == old(s.Abs())
      decreases |polls| - k
    {
      if k == |polls| {
        err := Timeout;
        return;
      }
      var p := polls[k];
      if p.fails {
        err := Device;
        return;
      }
      k := k + 1;
      fs := DoPoll(s, p, c0, fs);
      OutputFrame(s.Abs(), p.now, p.up);
      RunAppend(c0, fs, Nudge(p.now, p.up));
      PolledMore(fs, Nudge(p.now, p.up));
      s.Output(p.now, p.up);
      fs := fs + [Nudge(p.now, p.up)];
    }
  }

  method WriteRound(s: Socket, data: seq<byte>, now: int, up: bool, ghost c0: Conn, ghost es: seq<Event>)
    returns (n: nat, ghost fs: seq<Event>)
    requires s.Valid() && Sound(c0) && s.Abs() == Run(c0, es) && |s.Abs().tx| < SIZE && |data| > 0
    modifies s.Repr()
    ensures s.Valid() && s.Abs() == Run(c0, fs) && Polled(fs) == Polled(es)
    ensures 0 < n == Min(|data|, SIZE - |old(s.Abs()).tx|)
    ensures s.Abs().written == old(s.Abs()).written + data[..n] && s.Abs().taken == old(s.Abs()).taken
  {
    hide Run, Polled;
    WriteKeeps(s.Abs(), data, now, up);
    RunAppend(c0, es, Event.Send(data, now, up));
    PolledMore(es, Event.Send(data, now, up));
    n := s.WriteSome(data, now, up);
    fs := es + [Event.Send(data, now, up)];
  }

  /** Send, with a reading for each round of writing: the bytes written are exactly the first total of data, in
      order, whatever happened while it waited; and all of them unless it reports an error. It gives up only on a full
      ring, and never before it has written what had room at the start. */
  method Send(s: Socket, data: seq<byte>, polls: seq<Poll>, clock: nat -> Reading)
    returns (total: nat, err: Error, ghost es: seq<Event>)
    requires s.Valid() && Sound(s.Abs())
    modifies s.Repr()
    ensures s.Valid() && s.Abs() == Run(old(s.Abs()), es)
    ensures total <= |data| && s.Abs().written == old(s.Abs()).written + data[..total]
    ensures s.Abs().taken == old(s.Abs()).taken
    ensures old(s.sock) != Connected <==> err == NotConnected
    ensures err == NotConnected ==> total == 0 && s.Abs() == old(s.Abs())
    ensures err != NotConnected ==> total >= Min(|data|, SIZE - |old(s.Abs()).tx|)
    ensures err == NoError <==> total == |data| && err != NotConnected
    ensures err in {Timeout, Device} ==> |s.Abs().tx| == SIZE
    ensures err in {NoError, NotConnected, Timeout, Device} && GaveUp(err, polls, es)
  {
    if s.sock != Connected {
      return 0, NotConnected, [];
    }
    total, err, es := SendLoop(s, data, polls, clock, s.Abs());
  }

  method SendLoop(s: Socket, data: seq<byte>, polls: seq<Poll>, clock: nat -> Reading, ghost c0: Conn)
    returns (total: nat, err: Error, ghost es: seq<Event>)
    requires s.Valid() && s.Abs() == c0 && Sound(c0)
    modifies s.Repr()
    ensures s.Valid() && s.Abs() == Run(c0, es) && SentSoFar(c0, s.Abs(), data, total)
    ensures err == NoError <==> total == |data|
    ensures err in {Timeout, Device} ==> |s.Abs().tx| == SIZE
    ensures err in {NoError, Timeout, Device} && GaveUp(err, polls, es)
  {
    total, err, es := 0, NoError, [];
    assert Run(c0, es) == c0 && Polled(es) == 0;
    hide Run, Output, SentSoFar, Polled;
    SentNothing(c0, data);
    var k, round := 0, 0;
    while total < |data|
      invariant s.Valid() && s.Abs() == Run(c0, es) && k == Polled(es) <= |polls|
      invariant total <= |data| && SentSoFar(c0, s.Abs(), data, total)
      decreases |data| - total
    {
      var n;
      k, n, err, es := SendRound(s, data, total, polls, k, clock(round), c0, es);
      if err != NoError {
        return;
      }
      round := round + 1;
      total := total + n;
    }
    err := NoError;
  }

  /** Of data, total bytes were written since c0, and nothing was read; once anything was, all there was room for. */
  ghost predicate SentSoFar(c0: Conn, c: Conn, data: seq<byte>, total: nat) {
    && total <= |data| && c.written == c0.written + data[..total] && c.taken == c0.taken
    && (if total == 0 && |c0.tx| < SIZE then c == c0 else total >= Min(|data|, SIZE - |c0.tx|))
  }

  lemma SentNothing(c0: Conn, data: seq<byte>)
    requires |c0.tx| <= SIZE
    ensures SentSoFar(c0, c0, data, 0)
  {
  }

  /** One round: wait for room, then write what fits. */
  method SendRound(s: Socket, data: seq<byte>, total: nat, polls: seq<Poll>, next: nat, r: Reading,
                   ghost c0: Conn, ghost es: seq<Event>)
    returns (k: nat, n: nat, err: Error, ghost fs: seq<Event>)
    requires s.Valid() && Sound(c0) && s.Abs() == Run(c0, es)
    requires total < |data| && next == Polled(es) <= |polls| && SentSoFar(c0, s.Abs(), data, total)
    modifies s.Repr()
    ensures s.Valid() && s.Abs() == Run(c0, fs) && k <= |polls| && err in {NoError, Timeout, Device}
    ensures (err == NoError ==> k == Polled(fs)) && GaveUp(err, polls, fs)
    ensures if err == NoError then 0 < n <= |data| - total && SentSoFar(c0, s.Abs(), data, total + n)
            else |s.Abs().tx| == SIZE && SentSoFar(c0, s.Abs(), data, total)
  {
    hide Run, Output, Polled;
    n := 0;
    k, err, fs := AwaitRoom(s, polls, next, c0, es);
    if err != NoError {
      return;
    }
    n, fs := WriteRound(s, data[total..], r.now, r.up, c0, fs);
    AppendPrefix(c0.written, data, total, n);
  }

  lemma AppendPrefix(w: seq<byte>, data: seq<byte>, total: nat, n: nat)
    requires total + n <= |data|
    ensures w + data[..total] + data[total..][..n] == w + data[..total + n]
  {
  }

  lemma WriteKeeps(c: Conn, data: seq<byte>, now: int, up: bool)
    requires Sound(c)
    ensures var d := Write(c, data, now, up);
            d.written == c.written + data[..Written(c, data)] && d.taken == c.taken
    ensures |data| > 0 && |c.tx| < SIZE ==> Written(c, data) > 0
  {
    OutputFrame(Extended(c, data), now, up);
  }

  /** The connection takes no more. */
  predicate Over(c: Conn) {
    c.sock == Closed || c.tcp == NoTcp || c.tcp == CloseWait
  }

  /** Recv: hands over the next bytes accepted, in order, at once if there are any. With none it reports the end of the
      stream exactly when the connection takes no more, and waits otherwise. */
  method Recv(s: Socket, dst: array<byte>, polls: seq<Poll>) returns (n: nat, err: Error, ghost es: seq<Event>)
    requires s.Valid() && Sound(s.Abs()) && dst !in s.Repr()
    modifies s.Repr(), dst
    ensures s.Valid() && s.Abs() == Run(old(s.Abs()), es)
    ensures n <= dst.Length && s.Abs().taken == old(s.Abs()).taken + dst[..n]
    ensures s.Abs().written == old(s.Abs()).written
    ensures err == NoError && dst.Length > 0 ==> n > 0
    ensures old(s.Abs()).rx != [] ==> err == NoError && n == Min(dst.Length, |old(s.Abs()).rx|)
    ensures err != NoError ==> n == 0 && s.Abs().rx == [] && (err == EndOfStream <==> Over(s.Abs()))
    ensures old(s.Abs()).rx == [] && Over(old(s.Abs())) ==> err == EndOfStream && s.Abs() == old(s.Abs())
    ensures err in {NoError, Timeout, Device, EndOfStream} && GaveUp(err, polls, es)
  {
    n, err, es := 0, NoError, [];
    ghost var c0 := s.Abs();
    assert Run(c0, es) == c0 && Polled(es) == 0;
    hide Run, Input, Tick, Output, Sound, Polled;
    var k := 0;
    while s.rx.Available() == 0
      invariant s.Valid() && s.Abs() == Run(c0, es) && k == Polled(es) <= |polls| && err == NoError && n == 0
      invariant SameApplication(c0, s.Abs())
      invariant s.Abs() == c0 || (c0.rx == [] && !Over(c0))
      decreases |polls| - k
    {
      if s.sock == Closed || s.tcp.state == NoTcp || s.tcp.state == CloseWait {
        err := EndOfStream;
        assert s.Abs().taken + [] == s.Abs().taken;
        return;
      }
      if k == |polls| {
        err := Timeout;
        return;
      }
      var p := polls[k];
      if p.fails {
        err := Device;
        return;
      }
      k := k + 1;
      es := DoPoll(s, p, c0, es);
    }
    n, es := TakeNow(s, dst, c0, es);
  }

  /** The oldest bytes of the receive ring. */
  method TakeNow(s: Socket, dst: array<byte>, ghost c0: Conn, ghost es: seq<Event>)
    returns (n: nat, ghost fs: seq<Event>)
    requires s.Valid() && Sound(c0) && s.Abs() == Run(c0, es) && dst !in s.Repr()
    modifies s.Repr(), dst
    ensures s.Valid() && s.Abs() == Run(c0, fs)
    ensures n == Min(dst.Length, |old(s.Abs()).rx|)
    ensures s.Abs().taken == old(s.Abs()).taken + dst[..n] && s.Abs().written == old(s.Abs()).written
  {
    hide Run;
    RunAppend(c0, es, Event.Recv(dst.Length));
    n := s.ReadSome(dst);
    fs := es + [Event.Recv(dst.Length)];
  }
}
