/** The socket as the stack holds it: fields updated in place, bytes moved between ring arrays and the
    transmit packet buffer. Every method is proved equal to the function of the Tcp module it carries out. */
module Sockets {
  import opened Words
  import opened Rings
  import opened Tcp

  const TX_PKT := 1514
  const TRANSPORT := 34

  datatype TcpVars = TcpVars(
    state: TcpState, seqNum: u32, ackNum: u32, sndUna: u32, remoteWin: u16, mss: u16,
    retx: Time, retxCount: nat, finSent: bool, finAcked: bool, finRecvd: bool)

  const ZERO := TcpVars(NoTcp, 0, 0, 0, 0, 0, Unset, 0, false, false, false)

  class Socket {
    var sock: SockState
    /** The source's tcpState struct, assigned field by field. */
    var tcp: TcpVars
    const rx: Ring
    const tx: Ring
    /** The stack's packet buffer; payload is peeked straight into it. */
    const txPkt: array<byte>
    /** The segments handed to the network interface. */
    var sent: seq<Segment>

    ghost var accepted: seq<byte>
    ghost var taken: seq<byte>
    ghost var written: seq<byte>
    ghost var dropped: seq<byte>

    ghost function Repr(): set<object> {
      {this, rx, tx, rx.buf, tx.buf, txPkt}
    }

    ghost predicate Valid()
      reads this, rx, tx
    {
      && rx != tx && rx.buf != tx.buf && rx.buf != txPkt && tx.buf != txPkt
      && txPkt.Length == TX_PKT
      && rx.Valid() && tx.Valid()
    }

    ghost function Abs(): (c: Conn)
      requires Valid()
      reads this, rx, tx, rx.buf, tx.buf
      ensures |c.rx| <= SIZE && |c.tx| <= SIZE
    {
      Conn(sock, tcp.state, tcp.seqNum, tcp.ackNum, tcp.sndUna, tcp.remoteWin, tcp.mss,
           tcp.retx, tcp.retxCount, tcp.finSent, tcp.finAcked, tcp.finRecvd,
           rx.Contents(), tx.Contents(), accepted, taken, written, dropped, sent)
    }

    constructor ()
      ensures Valid() && Abs() == Blank([]) && fresh(Repr())
    {
      sock, tcp := Free, ZERO;
      rx := new Ring();
      tx := new Ring();
      txPkt := new byte[TX_PKT];
      sent := [];
      accepted, taken, written, dropped := [], [], [], [];
    }

    /** The payload is already in the packet buffer behind the header. */
    method SendTcp(f: Flags, payloadLen: nat)
      requires Valid() && TRANSPORT + (if f.syn then SYN_HEADER else TCP_HEADER) + payloadLen <= TX_PKT
      modifies this`sent, this`tcp
      ensures Valid()
      ensures var at := TRANSPORT + if f.syn then SYN_HEADER else TCP_HEADER;
              Abs() == Tcp.SendTcp(old(Abs()), f, txPkt[at..at + payloadLen])
    {
      var hdrLen := TCP_HEADER;
      if f.syn {
        hdrLen := SYN_HEADER;
      }
      var at := TRANSPORT + hdrLen;
      sent := sent + [Segment(tcp.seqNum, tcp.ackNum, f, rx.Free(), MAX_SEG, txPkt[at..at + payloadLen])];
      var seqAdv := payloadLen;
      if f.syn {
        seqAdv := seqAdv + 1;
      }
      if f.fin {
        seqAdv := seqAdv + 1;
      }
      tcp := tcp.(seqNum := Add32(tcp.seqNum, seqAdv));
    }

    method SendFlags(f: Flags, up: bool)
      requires Valid()
      modifies this`sent, this`tcp
      ensures Valid() && Abs() == Tcp.SendFlags(old(Abs()), f, up)
    {
      if !up {
        return;
      }
      SendTcp(f, 0);
    }

    method Output(now: int, up: bool)
      requires Valid()
      modifies this`sent, this`tcp, txPkt
      ensures Valid() && Abs() == Tcp.Output(old(Abs()), now, up)
    {
      var f := ChooseFlags();
      ghost var c1 := Abs();
      if !up {
        return;
      }
      var sendLen := PeekPayload();
      if sendLen > 0 {
        f := f.(psh := true);
      }
      assert Abs() == c1;
      Emit(f, sendLen, now);
    }

    method ChooseFlags() returns (f: Flags)
      requires Valid()
      modifies this`tcp
      ensures Valid() && f == OutputFlags(old(Abs()))
      ensures Abs() == if f.fin then old(Abs()).(finSent := true) else old(Abs())
    {
      f := ACK;
      match tcp.state {
        case SynSent => f := SYN;
        case FinWait1 =>
          f := FIN_ACK;
          tcp := tcp.(finSent := true);
        case LastAck =>
          f := FIN_ACK;
          tcp := tcp.(finSent := true);
        case _ =>
      }
    }

    method Emit(f: Flags, sendLen: nat, now: int)
      requires Valid() && TRANSPORT + (if f.syn then SYN_HEADER else TCP_HEADER) + sendLen <= TX_PKT
      modifies this`sent, this`tcp
      ensures Valid()
      ensures var at := TRANSPORT + if f.syn then SYN_HEADER else TCP_HEADER;
              Abs() == Tcp.Emit(old(Abs()), f, txPkt[at..at + sendLen], now)
    {
      SendTcp(f, sendLen);
      if sendLen > 0 || f.syn || f.fin {
        if tcp.retx == Unset {
          tcp := tcp.(retx := At(now + RETX_TIMEOUT));
        }
      }
    }

    /** On an open connection, copies the oldest unacknowledged bytes behind a plain header,
        as many as may be sent. */
    method PeekPayload() returns (n: nat)
      requires Valid()
      modifies txPkt
      ensures n <= MAX_SEG
      ensures var at := TRANSPORT + TCP_HEADER; txPkt[at..at + n] == OutputData(Abs())
      ensures n > 0 ==> !OutputFlags(Abs()).syn
      ensures Valid() && Abs() == old(Abs())
    {
      n := 0;
      if tcp.state == Established || tcp.state == CloseWait {
        var maxSend: nat := tcp.remoteWin;
        if tcp.mss < maxSend {
          maxSend := tcp.mss;
        }
        var maxPayload := MTU - IP_HEADER - TCP_HEADER;
        if maxSend > maxPayload {
          maxSend := maxPayload;
        }
        if maxSend > 0 {
          n := tx.Peek(txPkt, TRANSPORT + TCP_HEADER, maxSend);
        }
      }
    }

    method ProcessAck(ack: u32, now: int)
      requires Valid()
      modifies this`dropped, this`tcp, tx`tail
      ensures Valid() && Abs() == Tcp.ProcessAck(old(Abs()), ack, now)
    {
      var acked := AsInt(Sub32(ack, tcp.sndUna));
      if acked > 0 && acked <= tx.Available() {
        dropped := dropped + tx.Contents()[..acked];
        tx.Advance(acked);
        tcp := tcp.(sndUna := ack);
        tcp := tcp.(retxCount := 0);
        if tx.Available() > 0 {
          tcp := tcp.(retx := At(now + RETX_TIMEOUT));
        } else {
          tcp := tcp.(retx := Unset);
        }
      }
    }

    method Accept(data: Payload)
      requires Valid()
      modifies this`accepted, this`tcp, rx, rx.buf
      ensures Valid() && Abs() == Tcp.Accept(old(Abs()), data)
    {
      var n := rx.Write(data);
      accepted := accepted + data[..n];
      tcp := tcp.(ackNum := Add32(tcp.ackNum, n));
    }

    method Abort()
      requires Valid()
      modifies this`tcp, this`sock
      ensures Valid() && Abs() == Tcp.Abort(old(Abs()))
    {
      tcp := tcp.(state := NoTcp);
      sock := Closed;
    }

    method InSynSent(s: Segment, up: bool)
      requires Valid()
      modifies Repr()
      ensures Valid() && Abs() == Tcp.InSynSent(old(Abs()), s, up)
    {
      if s.flags.syn && s.flags.ack {
        tcp := tcp.(ackNum := Add32(s.seqNum, 1), seqNum := s.ackNum, sndUna := s.ackNum,
                    remoteWin := s.window, mss := s.mss, state := Established);
        sock := Connected;
        tcp := tcp.(retx := Unset);
        SendFlags(ACK, up);
      } else if s.flags.rst {
        Abort();
      }
    }

    method InEstablished(s: Segment, now: int, up: bool)
      requires Valid()
      modifies Repr()
      ensures Valid() && Abs() == Tcp.InEstablished(old(Abs()), s, now, up)
    {
      if s.flags.ack {
        ProcessAck(s.ackNum, now);
        tcp := tcp.(remoteWin := s.window);
      }
      assert Abs() == TakeAck(old(Abs()), s, now);
      TakeDataAndFin(s, up);
      if s.flags.rst {
        Abort();
      }
    }

    method TakeDataAndFin(s: Segment, up: bool)
      requires Valid()
      modifies Repr()
      ensures Valid() && Abs() == TakeFin(TakeData(old(Abs()), s, up), s, up)
    {
      if |s.data| > 0 && s.seqNum == tcp.ackNum {
        Accept(s.data);
        SendFlags(ACK, up);
      }
      assert Abs() == TakeData(old(Abs()), s, up);
      if s.flags.fin && Add32(s.seqNum, |s.data|) == tcp.ackNum {
        tcp := tcp.(ackNum := Add32(tcp.ackNum, 1));
        tcp := tcp.(finRecvd := true);
        tcp := tcp.(state := CloseWait);
        SendFlags(ACK, up);
      }
    }

    method EnterTimeWait(s: Segment, up: bool)
      requires Valid()
      modifies this`tcp, this`sent
      ensures Valid() && Abs() == Tcp.EnterTimeWait(old(Abs()), s, up)
    {
      tcp := tcp.(ackNum := Add32(s.seqNum, 1));
      tcp := tcp.(state := TimeWait);
      SendFlags(ACK, up);
    }

    method InFinWait1(s: Segment, now: int, up: bool)
      requires Valid()
      modifies Repr()
      ensures Valid() && Abs() == Tcp.InFinWait1(old(Abs()), s, now, up)
    {
      if s.flags.ack {
        ProcessAck(s.ackNum, now);
        if tcp.finSent && s.ackNum == tcp.seqNum {
          tcp := tcp.(finAcked := true);
          if s.flags.fin {
            EnterTimeWait(s, up);
          } else {
            tcp := tcp.(state := FinWait2);
          }
        }
      }
      if s.flags.fin && !tcp.finAcked && s.seqNum == tcp.ackNum {
        EnterTimeWait(s, up);
      }
    }

    method InFinWait2(s: Segment, now: int, up: bool)
      requires Valid()
      modifies this`tcp, this`sent
      ensures Valid() && Abs() == Tcp.InFinWait2(old(Abs()), s, now, up)
    {
      if s.flags.fin && s.seqNum == tcp.ackNum {
        tcp := tcp.(retx := At(now + TIME_WAIT));
        EnterTimeWait(s, up);
      }
    }

    method InSynReceived(s: Segment)
      requires Valid()
      modifies this`tcp, this`sock
      ensures Valid() && Abs() == Tcp.InSynReceived(old(Abs()), s)
    {
      if s.flags.ack {
        tcp := tcp.(state := Established);
        sock := Connected;
      }
      if s.flags.rst {
        Abort();
      }
    }

    method Input(s: Segment, now: int, up: bool)
      requires Valid()
      modifies Repr()
      ensures Valid() && Abs() == Tcp.Input(old(Abs()), s, now, up)
    {
      match tcp.state {
        case SynSent => InSynSent(s, up);
        case Established => InEstablished(s, now, up);
        case FinWait1 => InFinWait1(s, now, up);
        case FinWait2 => InFinWait2(s, now, up);
        case CloseWait =>
          if s.flags.ack {
            ProcessAck(s.ackNum, now);
          }
        case LastAck =>
          if s.flags.ack {
            Abort();
          }
        case SynReceived => InSynReceived(s);
        case _ =>
      }
    }

    method Timer(now: int, up: bool)
      requires Valid()
      modifies Repr()
      ensures Valid() && Abs() == Tick(old(Abs()), now, up)
    {
      if tcp.state == NoTcp {
        return;
      }
      if tcp.state == TimeWait && (tcp.retx == Unset || now > tcp.retx.ms) {
        Abort();
        return;
      }
      if tcp.retx != Unset && now > tcp.retx.ms {
        if tcp.retxCount >= MAX_RETX {
          Abort();
          return;
        }
        Retransmit(now, up);
      }
    }

    method Retransmit(now: int, up: bool)
      requires Valid()
      modifies Repr()
      ensures Valid() && Abs() == Tcp.Output(Rewind(old(Abs()), now), now, up)
    {
      var count := tcp.retxCount + 1;
      tcp := tcp.(retxCount := count, retx := At(now + RETX_TIMEOUT * Pow2(count)), seqNum := tcp.sndUna);
      assert Abs() == Rewind(old(Abs()), now);
      Output(now, up);
    }

    method Reset()
      requires Valid()
      modifies Repr()
      ensures Valid() && Abs() == Blank(old(sent))
    {
      sock := Free;
      rx.Reset();
      tx.Reset();
      tcp := ZERO;
      accepted, taken, written, dropped := [], [], [], [];
    }

    method StartConnect(isn: u32, now: int, up: bool)
      requires Valid()
      modifies Repr()
      ensures Valid() && Abs() == Tcp.Connect(old(Abs()), isn, now, up)
    {
      sock := Connecting;
      tcp := tcp.(state := SynSent, seqNum := isn, sndUna := isn, ackNum := 0);
      SendFlags(SYN, up);
      tcp := tcp.(retx := At(now + RETX_TIMEOUT));
    }

    method Spawn(irs: u32, isn: u32, peerMss: u16, up: bool)
      requires Valid()
      modifies Repr()
      ensures Valid() && Abs() == Tcp.Spawn(old(sent), irs, isn, peerMss, up)
    {
      Reset();
      sock := Connecting;
      tcp := tcp.(state := SynReceived, ackNum := Add32(irs, 1), seqNum := isn, sndUna := isn,
                  remoteWin := MAX_SEG, mss := peerMss);
      SendFlags(SYN_ACK, up);
    }

    method CloseTo(state: TcpState, up: bool)
      requires Valid()
      modifies this`sock, this`tcp, this`sent
      ensures Valid() && Abs() == Tcp.CloseTo(old(Abs()), state, up)
    {
      tcp := tcp.(state := state);
      sock := Closing;
      SendFlags(FIN_ACK, up);
      tcp := tcp.(finSent := true);
    }

    method Close(up: bool)
      requires Valid()
      modifies Repr()
      ensures Valid() && Abs() == Tcp.Close(old(Abs()), up)
    {
      match tcp.state {
        case Established => CloseTo(FinWait1, up);
        case CloseWait => CloseTo(LastAck, up);
        case _ => Reset();
      }
    }

    /** One round of the Send loop. */
    method WriteSome(data: seq<byte>, now: int, up: bool) returns (n: nat)
      requires Valid()
      modifies Repr()
      ensures Valid() && Abs() == Tcp.Write(old(Abs()), data, now, up)
      ensures n == Written(old(Abs()), data)
    {
      n := tx.Write(data);
      written := written + data[..n];
      Output(now, up);
    }

    method ReadSome(dst: array<byte>) returns (n: nat)
      requires Valid() && dst !in Repr()
      modifies Repr(), dst
      ensures Valid() && Abs() == Tcp.Read(old(Abs()), dst.Length)
      ensures n == Min(dst.Length, |old(Abs()).rx|) && dst[..n] == old(Abs()).rx[..n]
    {
      taken := taken + rx.Contents()[..Min(dst.Length, |rx.Contents()|)];
      n := rx.Read(dst, 0, dst.Length);
    }
  }
}
