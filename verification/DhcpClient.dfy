/** The DHCP client (stack/dhcp.go). Time is in milliseconds; None is Go's zero time. */
module DhcpClient {
  import opened Words
  import opened DhcpLease
  import opened DhcpWire

  const RETX := 4000

  datatype State = Init | Selecting | Requesting | Bound | Renewing

  /** What SetAddr gives the stack. */
  datatype Config = Config(ip: Addr, gateway: Addr, subnet: Addr, dns: Addr)

  const UNSET := Config(NoAddr, NoAddr, NoAddr, NoAddr)

  /** The client's fields, the stack's address, the messages sent so far and the routers asked for by ARP. */
  datatype Client = Client(
    mac: Mac, xid: u32, state: State, offered: Addr, server: Addr, leaseMs: nat,
    renewAt: Option<int>, retxAt: Option<int>, retxCount: nat, cfg: Config, sent: seq<seq<byte>>,
    asked: seq<Addr>)

  function Fresh(mac: Mac, xid: u32): Client {
    Client(mac, xid, Init, NoAddr, NoAddr, 0, None, None, 0, UNSET, [], [])
  }

  function SendDiscover(c: Client, now: int): Client {
    c.(retxAt := Some(now + RETX), sent := c.sent + [RequestBytes(c.xid, c.mac, DISCOVER, NoAddr, NoAddr)])
  }

  function SendRequest(c: Client, now: int): Client {
    c.(retxAt := Some(now + RETX), sent := c.sent + [RequestBytes(c.xid, c.mac, REQUEST, c.offered, c.server)])
  }

  function Started(c: Client, now: int): Client {
    SendDiscover(c.(state := Selecting, retxCount := 0), now)
  }

  predicate Due(t: Option<int>, now: int) {
    t.Some? && now > t.value
  }

  function Polled(c: Client, now: int): Client {
    var d := c.(retxCount := c.retxCount + 1);
    match c.state
    case Init => c
    case Bound => if Due(c.renewAt, now) then SendRequest(c.(state := Renewing), now) else c
    case Renewing =>
      if !Due(c.retxAt, now) then c
      else if d.retxCount > 3 then Started(d, now)
      else SendRequest(d, now)
    case _ =>
      if !Due(c.retxAt, now) then c
      else if d.retxCount > 5 then d.(state := Init)
      else if c.state == Selecting then SendDiscover(d, now)
      else SendRequest(d, now)
  }

  function Configured(g: Got): Config {
    var r := g.reply;
    Config(g.yiaddr, r.router, r.subnet, if !r.dns.IsValid() && r.router.IsValid() then r.router else r.dns)
  }

  function Heeded(c: Client, g: Got, now: int): Client {
    if g.reply.msgType == OFFER && c.state == Selecting then
      SendRequest(c.(offered := g.yiaddr, server := g.reply.server, state := Requesting, retxCount := 0), now)
    else if g.reply.msgType == ACK && (c.state == Requesting || c.state == Renewing) then
      var ms := g.reply.lease * 1000;
      c.(state := Bound, leaseMs := ms, renewAt := Some(now + ms / 2), cfg := Configured(g),
         asked := if g.reply.router.IsValid() then c.asked + [g.reply.router] else c.asked)
    else if g.reply.msgType == NAK then c.(state := Init)
    else c
  }

  function Handled(c: Client, data: seq<byte>, now: int): Client {
    match ClientView(c.xid, data)
    case None => c
    case Some(g) => Heeded(c, g, now)
  }

  /** The retransmission counter never comes near the end of its byte. */
  lemma CounterSmall(c: Client, data: seq<byte>, now: int)
    requires c.retxCount <= 6 && (c.retxCount == 6 ==> c.state == Init)
    ensures forall d | d in [Started(c, now), Polled(c, now), Handled(c, data, now)] ::
              d.retxCount <= 6 && (d.retxCount == 6 ==> d.state == Init)
  {
  }

  // ---------------------------------------------------------------- waiting

  function PolledAll(c: Client, nows: seq<int>): Client
    decreases |nows|
  {
    if nows == [] then c else PolledAll(Polled(c, nows[0]), nows[1..])
  }

  /** The message a client repeats. */
  function Pending(c: Client): seq<byte> {
    if c.state == Selecting then RequestBytes(c.xid, c.mac, DISCOVER, NoAddr, NoAddr)
    else RequestBytes(c.xid, c.mac, REQUEST, c.offered, c.server)
  }

  function Copies(m: seq<byte>, n: nat): seq<seq<byte>> {
    seq(n, _ => m)
  }

  /** Whenever it is polled, a client that hears nothing repeats its message, at most until the counter is five, and
      gives up at six. */
  lemma {:induction false} RepeatsThenGivesUp(c: Client, nows: seq<int>)
    requires (c.state == Selecting || c.state == Requesting) && c.retxCount <= 5
    ensures var d := PolledAll(c, nows);
            && c.retxCount <= d.retxCount <= 6 && d.state == (if d.retxCount == 6 then Init else c.state)
            && d.sent == c.sent + Copies(Pending(c), (if d.retxCount == 6 then 5 else d.retxCount) - c.retxCount)
    decreases |nows|
  {
    hide RequestBytes;
    if nows == [] {
      assert c.sent + [] == c.sent;
    } else {
      var d := Polled(c, nows[0]);
      if d.state != Init {
        RepeatsThenGivesUp(d, nows[1..]);
      } else {
        InitStays(d, nows[1..]);
      }
    }
  }

  lemma {:induction false} InitStays(c: Client, nows: seq<int>)
    requires c.state == Init
    ensures PolledAll(c, nows) == c
    decreases |nows|
  {
    if nows == [] {
    } else {
      InitStays(c, nows[1..]);
    }
  }

  /** A lease is asked for again when half of it has passed, and not before. */
  lemma RenewsAtHalf(c: Client, data: seq<byte>, g: Got, now: int, later: int)
    requires ClientView(c.xid, data) == Some(g) && g.reply.msgType == ACK
    requires c.state == Requesting || c.state == Renewing
    ensures var d := Handled(c, data, now);
            && d.state == Bound && d.cfg.ip == g.yiaddr
            && Polled(d, later) ==
               if later <= now + 500 * g.reply.lease then d
               else d.(state := Renewing, retxAt := Some(later + RETX),
                       sent := c.sent + [RequestBytes(c.xid, c.mac, REQUEST, c.offered, c.server)])
  {
    hide ClientView, RequestBytes;
  }

  /** The acknowledgement leaves the counter of the exchange before it: a renewal that is not answered in time starts
      over at once if three messages were repeated then, and is repeated otherwise. */
  lemma RenewalInherits(c: Client, data: seq<byte>, g: Got, now: int, t1: int, t2: int)
    requires ClientView(c.xid, data) == Some(g) && g.reply.msgType == ACK
    requires (c.state == Requesting || c.state == Renewing) && t1 > now + 500 * g.reply.lease && t2 > t1 + RETX
    ensures var d := Polled(Polled(Handled(c, data, now), t1), t2);
            if c.retxCount >= 3 then d.state == Selecting && d.retxCount == 0
            else d.state == Renewing && d.retxCount == c.retxCount + 1
  {
    hide ClientView, RequestBytes;
  }

  /** A refusal stops the client: it keeps the address it has and never asks again unless it is started anew. */
  lemma RefusalStops(c: Client, data: seq<byte>, g: Got, now: int, nows: seq<int>)
    requires ClientView(c.xid, data) == Some(g) && g.reply.msgType == NAK
    ensures PolledAll(Handled(c, data, now), nows) == c.(state := Init)
  {
    InitStays(Handled(c, data, now), nows);
    hide ClientView;
  }

  class DhcpClient {
    const mac: Mac
    const xid: u32
    var state: State
    var offeredIP: Addr
    var serverIP: Addr
    var leaseTime: nat
    var renewTime: Option<int>
    var retxTime: Option<int>
    var retxCount: nat
    var cfg: Config
    var sent: seq<seq<byte>>
    var asked: seq<Addr>

    ghost function Abs(): Client
      reads this
    {
      Client(mac, xid, state, offeredIP, serverIP, leaseTime, renewTime, retxTime, retxCount, cfg, sent, asked)
    }

    constructor (hardware: Mac, id: u32)
      ensures Abs() == Fresh(hardware, id)
    {
      mac, xid := hardware, id;
      state, offeredIP, serverIP, leaseTime := Init, NoAddr, NoAddr, 0;
      renewTime, retxTime, retxCount, cfg, sent, asked := None, None, 0, UNSET, [], [];
    }

    method Send(msgType: byte, requested: Addr, server: Addr, now: int)
      modifies this`retxTime, this`sent
      ensures Abs() == old(Abs()).(retxAt := Some(now + RETX),
                                   sent := old(sent) + [RequestBytes(xid, mac, msgType, requested, server)])
    {
      var buf := new byte[BUFFER](_ => 0xFF);
      var n := BuildRequest(xid, mac, msgType, requested, server, buf);
      retxTime := Some(now + RETX);
      sent := sent + [buf[..n]];
    }

    method Start(now: int)
      modifies this
      ensures Abs() == Started(old(Abs()), now)
    {
      state := Selecting;
      retxCount := 0;
      Send(DISCOVER, NoAddr, NoAddr, now);
    }

    method Poll(now: int)
      modifies this
      ensures Abs() == Polled(old(Abs()), now)
    {
      if state == Selecting || state == Requesting {
        if retxTime.Some? && now > retxTime.value {
          retxCount := retxCount + 1;
          if retxCount > 5 {
            state := Init;
            return;
          }
          if state == Selecting {
            Send(DISCOVER, NoAddr, NoAddr, now);
          } else {
            Send(REQUEST, offeredIP, serverIP, now);
          }
        }
      } else if state == Bound {
        if renewTime.Some? && now > renewTime.value {
          state := Renewing;
          Send(REQUEST, offeredIP, serverIP, now);
        }
      } else if state == Renewing {
        if retxTime.Some? && now > retxTime.value {
          retxCount := retxCount + 1;
          if retxCount > 3 {
            state := Init;
            Start(now);
            return;
          }
          Send(REQUEST, offeredIP, serverIP, now);
        }
      }
    }

    method HandlePacket(data: seq<byte>, now: int)
      modifies this
      ensures Abs() == Handled(old(Abs()), data, now)
    {
      hide ReplyIn, Options, RequestBytes;
      if |data| < FIXED {
        return;
      }
      if data[0] != BOOT_REPLY {
        return;
      }
      if Be32(data[4], data[5], data[6], data[7]) != xid {
        return;
      }
      var yiaddr := V4(data[16], data[17], data[18], data[19]);
      CookieWord(data);
      if Be32(data[236], data[237], data[238], data[239]) != 0x63825363 {
        return;
      }
      var r := ScanReply(data[FIXED..]);
      assert ClientView(xid, data) == Some(Got(yiaddr, r));
      hide ClientView;
      Heed(yiaddr, r, now);
    }

    /** Acts on the message type in the light of the state. */
    method Heed(yiaddr: Addr, r: Reply, now: int)
      modifies this
      ensures Abs() == Heeded(old(Abs()), Got(yiaddr, r), now)
    {
      hide RequestBytes;
      if r.msgType == OFFER {
        if state == Selecting {
          offeredIP := yiaddr;
          serverIP := r.server;
          state := Requesting;
          retxCount := 0;
          Send(REQUEST, offeredIP, serverIP, now);
        }
      } else if r.msgType == ACK {
        if state == Requesting || state == Renewing {
          state := Bound;
          leaseTime := r.lease * 1000;
          renewTime := Some(now + leaseTime / 2);
          var dns := r.dns;
          if !dns.IsValid() && r.router.IsValid() {
            dns := r.router;
          }
          cfg := Config(yiaddr, r.router, r.subnet, dns);
          if r.router.IsValid() {
            asked := asked + [r.router];
          }
        }
      } else if r.msgType == NAK {
        state := Init;
      }
    }
  }
}
