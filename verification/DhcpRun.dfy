/** The DHCP client and server against each other (section 3.1 of RFC 2131), over a network that loses,
    duplicates and reorders, with other clients that use other transaction numbers. */
module DhcpRun {
  import opened Words
  import opened DhcpLease
  import opened DhcpWire
  import opened DhcpServer
  import opened DhcpClient

  /** The server's two parameters. */
  datatype Net = Net(gateway: Addr, subnet: Addr)

  /** The lease table, this client, and everything the server ever broadcast. */
  datatype World = World(ls: seq<Lease>, client: Client, down: seq<seq<byte>>)

  datatype Event =
    | Begin(now: int)
    | Tick(now: int)
    | ToServer(data: seq<byte>)
    | ToClient(data: seq<byte>, now: int)

  ghost predicate Plain(n: Net) {
    n.gateway.V4? && n.subnet.V4?
  }

  /** A packet from another client, or from nobody the server heeds. */
  predicate FromOther(c: Client, data: seq<byte>) {
    match ServerView(data)
    case None => true
    case Some(h) => h.mac != c.mac && XidOf(h.xid) != c.xid
  }

  /** Whatever was sent may arrive at any later time, any number of times, or never. */
  function Step(n: Net, w: World, e: Event): World
    requires n.gateway.V4? && |w.ls| == MAX_LEASES
  {
    match e
    case Begin(now) => w.(client := Started(w.client, now))
    case Tick(now) => w.(client := Polled(w.client, now))
    case ToServer(data) =>
      if data in w.client.sent || FromOther(w.client, data) then
        w.(ls := AfterPacket(w.ls, n.gateway, data),
           down := w.down + Sent(PacketAnswers(w.ls, n.gateway, data), n.gateway, n.subnet))
      else w
    case ToClient(data, now) =>
      if data in w.down || ClientView(w.client.xid, data) == None then w.(client := Handled(w.client, data, now))
      else w
  }

  function Run(n: Net, w: World, es: seq<Event>): World
    requires n.gateway.V4? && |w.ls| == MAX_LEASES
    decreases |es|
  {
    if es == [] then w else Run(n, Step(n, w, es[0]), es[1..])
  }

  // ---------------------------------------------------------------- the invariant

  function Lease(w: World): Addr {
    LeaseOf(w.ls, w.client.mac)
  }

  function Given(n: Net, ip: Addr): Config {
    Config(ip, n.gateway, n.subnet, n.gateway)
  }

  ghost predicate OwnMessage(c: Client, data: seq<byte>) {
    match ServerView(data)
    case None => false
    case Some(h) => h.mac == c.mac && XidOf(h.xid) == c.xid
  }

  /** Whatever the client would heed is an offer or acknowledgement of this address. */
  ghost predicate Offers(n: Net, xid: u32, ip: Addr, data: seq<byte>) {
    match ClientView(xid, data)
    case None => true
    case Some(g) =>
      && ip.IsValid()
      && (g.reply.msgType == OFFER || g.reply.msgType == ACK)
      && g == Got(ip, Reply(g.reply.msgType, n.subnet, n.gateway, n.gateway, n.gateway, 3600))
  }

  ghost predicate ClientSane(n: Net, c: Client, ip: Addr) {
    && (c.state == Requesting ==> ip.IsValid() && c.offered == ip && c.server == n.gateway)
    && (c.state == Bound || c.state == Renewing ==> ip.IsValid() && c.cfg == Given(n, ip))
    && (c.cfg == UNSET || (ip.IsValid() && c.cfg == Given(n, ip)))
  }

  ghost predicate Inv(n: Net, w: World) {
    && Plain(n) && Tidy(w.ls, n.gateway)
    && (forall d | d in w.client.sent :: OwnMessage(w.client, d))
    && (forall d | d in w.down :: Offers(n, w.client.xid, Lease(w), d))
    && ClientSane(n, w.client, Lease(w))
  }

  lemma RequestIsOwn(c: Client, msgType: byte, requested: Addr, server: Addr)
    ensures OwnMessage(c, RequestBytes(c.xid, c.mac, msgType, requested, server))
  {
    hide ServerView, RequestBytes;
    RequestRoundTrip(c.xid, c.mac, msgType, requested, server);
  }

  /** Every answer of the server that this client would heed names its lease. */
  lemma AnswersOffer(n: Net, w: World, data: seq<byte>, d: seq<byte>)
    requires Plain(n) && |w.ls| == MAX_LEASES
    requires OwnMessage(w.client, data) || FromOther(w.client, data)
    requires d in Sent(PacketAnswers(w.ls, n.gateway, data), n.gateway, n.subnet)
    ensures Offers(n, w.client.xid, LeaseOf(AfterPacket(w.ls, n.gateway, data), w.client.mac), d)
  {
    hide ServerView, ReplyBytes, Leased, LeaseOf, ClientView;
    var xs := PacketAnswers(w.ls, n.gateway, data);
    assert |xs| == 1 && d == AnswerBytes(xs[0], n.gateway, n.subnet);
    AnswerIsLease(w.ls, n.gateway, data, 0);
    ReplyRoundTrip(w.client.xid, xs[0].xid, xs[0].mac, xs[0].msgType, xs[0].ip, n.gateway, n.subnet);
  }

  lemma ServerStepKeeps(n: Net, w: World, data: seq<byte>)
    requires Inv(n, w) && (data in w.client.sent || FromOther(w.client, data))
    ensures Inv(n, Step(n, w, ToServer(data)))
  {
    assert Plain(n) && |w.ls| == MAX_LEASES;
    hide ServerView, AfterPacket, PacketAnswers, LeaseOf, Tidy, ClientView;
    PacketKeeps(w.ls, n.gateway, data, w.client.mac);
    var now := Step(n, w, ToServer(data));
    LeaseMonotone(n, w, now.ls);
    forall d | d in now.down && d !in w.down
      ensures Offers(n, w.client.xid, Lease(now), d)
    {
      AnswersOffer(n, w, data, d);
    }
  }

  /** What was offered or bound before stays true while the lease stays the same. */
  lemma LeaseMonotone(n: Net, w: World, ls: seq<DhcpLease.Lease>)
    requires Inv(n, w)
    requires LeaseOf(w.ls, w.client.mac).IsValid() ==> LeaseOf(ls, w.client.mac) == LeaseOf(w.ls, w.client.mac)
    ensures forall d | d in w.down :: Offers(n, w.client.xid, LeaseOf(ls, w.client.mac), d)
    ensures ClientSane(n, w.client, LeaseOf(ls, w.client.mac))
  {
    hide LeaseOf, Tidy, ClientView, OwnMessage;
  }

  lemma ClientStepKeeps(n: Net, w: World, data: seq<byte>, now: int)
    requires Inv(n, w) && (data in w.down || ClientView(w.client.xid, data) == None)
    ensures Inv(n, Step(n, w, ToClient(data, now)))
  {
    assert |w.ls| == MAX_LEASES;
    hide ServerView, LeaseOf, Tidy, ClientView, RequestBytes;
    assert Offers(n, w.client.xid, Lease(w), data);
    var c, d := w.client, Handled(w.client, data, now);
    HandledSane(n, c, data, now, Lease(w));
    forall m | m in d.sent && m !in c.sent
      ensures OwnMessage(c, m)
    {
      RequestIsOwn(c, REQUEST, d.offered, d.server);
    }
    assert Step(n, w, ToClient(data, now)) == w.(client := d);
    SameIdentity(c, d);
    hide Handled, Offers, ClientSane;
  }

  lemma HandledSane(n: Net, c: Client, data: seq<byte>, now: int, ip: Addr)
    requires ClientSane(n, c, ip) && Offers(n, c.xid, ip, data)
    ensures ClientSane(n, Handled(c, data, now), ip)
    ensures var d := Handled(c, data, now);
            && d.mac == c.mac && d.xid == c.xid
            && (d.sent == c.sent || d.sent == c.sent + [RequestBytes(c.xid, c.mac, REQUEST, d.offered, d.server)])
  {
    hide ClientView, RequestBytes;
  }

  lemma SameIdentity(c: Client, d: Client)
    requires d.mac == c.mac && d.xid == c.xid
    ensures forall m :: OwnMessage(c, m) <==> OwnMessage(d, m)
  {
  }

  lemma LocalStepKeeps(n: Net, w: World, d: Client)
    requires Inv(n, w) && d.mac == w.client.mac && d.xid == w.client.xid
    requires ClientSane(n, d, Lease(w))
    requires d.sent == w.client.sent
             || exists t, a, b :: d.sent == w.client.sent + [RequestBytes(d.xid, d.mac, t, a, b)]
    ensures Inv(n, w.(client := d))
  {
    hide ServerView, LeaseOf, Tidy, ClientView, RequestBytes, ClientSane, Offers;
    SameIdentity(w.client, d);
    hide OwnMessage;
    if d.sent != w.client.sent {
      var t, a, b :| d.sent == w.client.sent + [RequestBytes(d.xid, d.mac, t, a, b)];
      RequestIsOwn(d, t, a, b);
    }
  }

  lemma PolledSane(n: Net, c: Client, now: int, ip: Addr)
    requires ClientSane(n, c, ip)
    ensures ClientSane(n, Polled(c, now), ip) && ClientSane(n, Started(c, now), ip)
    ensures forall d | d in [Polled(c, now), Started(c, now)] ::
              && d.mac == c.mac && d.xid == c.xid
              && (d.sent == c.sent || exists t, a, b :: d.sent == c.sent + [RequestBytes(d.xid, d.mac, t, a, b)])
  {
    hide RequestBytes;
  }

  lemma StepKeeps(n: Net, w: World, e: Event)
    requires Inv(n, w)
    ensures Inv(n, Step(n, w, e))
  {
    match e {
      case Begin(now) =>
        PolledSane(n, w.client, now, Lease(w));
        LocalStepKeeps(n, w, Started(w.client, now));
      case Tick(now) =>
        PolledSane(n, w.client, now, Lease(w));
        LocalStepKeeps(n, w, Polled(w.client, now));
      case ToServer(data) =>
        if data in w.client.sent || FromOther(w.client, data) {
          ServerStepKeeps(n, w, data);
        }
      case ToClient(data, now) =>
        if data in w.down || ClientView(w.client.xid, data) == None {
          ClientStepKeeps(n, w, data, now);
        }
    }
  }

  lemma {:induction false} RunKeepsInv(n: Net, w: World, es: seq<Event>)
    requires Inv(n, w)
    ensures Inv(n, Run(n, w, es))
    decreases |es|
  {
    assert n.gateway.V4? && |w.ls| == MAX_LEASES;
    hide Inv, Step;
    if es == [] {
    } else {
      StepKeeps(n, w, es[0]);
      assert n.gateway.V4?;
      RunKeepsInv(n, Step(n, w, es[0]), es[1..]);
    }
  }

  function Start(mac: Mac, xid: u32): World {
    World(seq(MAX_LEASES, _ => EMPTY), Fresh(mac, xid), [])
  }

  lemma StartInv(n: Net, mac: Mac, xid: u32)
    requires Plain(n)
    ensures Inv(n, Start(mac, xid))
  {
  }

  /** In every run, a client that is bound or renewing has configured its stack with the server's lease for its own
      hardware address, which no other has and which is not the gateway's, and with the server's gateway, mask and
      name server; and once configured the stack never gets another address. */
  lemma BoundMeansLease(n: Net, mac: Mac, xid: u32, es: seq<Event>, other: Mac)
    requires Plain(n)
    ensures var w := Run(n, Start(mac, xid), es);
            var ip := LeaseOf(w.ls, w.client.mac);
            && w.client.mac == mac
            && (w.client.state == Bound || w.client.state == Renewing || w.client.cfg != UNSET ==>
                  && ip.IsValid() && w.client.cfg == Config(ip, n.gateway, n.subnet, n.gateway)
                  && ip != n.gateway && (other != mac ==> LeaseOf(w.ls, other) != ip))
  {
    StartInv(n, mac, xid);
    RunKeepsInv(n, Start(mac, xid), es);
    SameMac(n, Start(mac, xid), es);
    var w := Run(n, Start(mac, xid), es);
    TidyUnique(w.ls, n.gateway, mac, other);
  }

  lemma {:induction false} SameMac(n: Net, w: World, es: seq<Event>)
    requires n.gateway.V4? && |w.ls| == MAX_LEASES
    ensures Run(n, w, es).client.mac == w.client.mac
    decreases |es|
  {
    hide AfterPacket, PacketAnswers, ClientView, FromOther, RequestBytes;
    if es == [] {
    } else {
      SameMac(n, Step(n, w, es[0]), es[1..]);
    }
  }

  // ---------------------------------------------------------------- a loss-free exchange

  function LastOf(s: seq<seq<byte>>): seq<byte>
    requires s != []
  {
    s[|s| - 1]
  }

  /** The client's newest message reaches the server, and if that answers, its answer reaches the client. */
  function RoundTrip(n: Net, w: World, now: int): World
    requires n.gateway.V4? && |w.ls| == MAX_LEASES && w.client.sent != []
  {
    var w1 := Step(n, w, ToServer(LastOf(w.client.sent)));
    if |w1.down| == |w.down| then w1 else Step(n, w1, ToClient(LastOf(w1.down), now))
  }

  /** Where this client's message of a type and the answer to it lead. */
  lemma OneRoundTrip(n: Net, w: World, msgType: byte, requested: Addr, server: Addr, now: int)
    requires Plain(n) && |w.ls| == MAX_LEASES && w.client.sent != []
    requires LastOf(w.client.sent) == RequestBytes(w.client.xid, w.client.mac, msgType, requested, server)
    requires msgType == DISCOVER || msgType == REQUEST
    ensures var h := Heard(Bytes32(w.client.xid), w.client.mac, Request(msgType, requested));
            var ls := Leased(w.ls, n.gateway, h);
            var ip := LeaseOf(ls, w.client.mac);
            var w2 := RoundTrip(n, w, now);
            && w2.ls == ls
            && (!ip.IsValid() ==> w2 == w.(ls := ls))
            && (ip.IsValid() ==>
                  w2.client == Heeded(w.client, Got(ip, Reply(if msgType == DISCOVER then OFFER else ACK, n.subnet,
                                                             n.gateway, n.gateway, n.gateway, 3600)), now))
  {
    hide ServerView, ClientView, ReplyBytes, RequestBytes, Leased, LeaseOf, Heeded, FromOther, Bytes32;
    var data := LastOf(w.client.sent);
    var h := Heard(Bytes32(w.client.xid), w.client.mac, Request(msgType, requested));
    RequestRoundTrip(w.client.xid, w.client.mac, msgType, requested, server);
    var xs := Answers(w.ls, n.gateway, h);
    if xs != [] {
      ReplyRoundTrip(w.client.xid, xs[0].xid, xs[0].mac, xs[0].msgType, xs[0].ip, n.gateway, n.subnet);
      assert Sent(xs, n.gateway, n.subnet) == [AnswerBytes(xs[0], n.gateway, n.subnet)];
    }
  }

  /** From any reachable world, with nothing lost, discovery reaches Bound exactly when the client has a lease or
      a slot is free. */
  lemma LossFreeBinds(n: Net, w: World, now: int)
    requires Inv(n, w)
    ensures var w1 := Step(n, w, Begin(now));
            var w2 := RoundTrip(n, w1, now);
            && w2.client.sent != [] && |w2.ls| == MAX_LEASES
            && (RoundTrip(n, w2, now).client.state == Bound <==>
                  Lease(w).IsValid() || exists i :: 0 <= i < MAX_LEASES && !w.ls[i].used)
  {
    var w1 := Step(n, w, Begin(now));
    AllocateSucceeds(w.ls, n.gateway, w.client.mac);
    hide LeaseOf, Tidy, Allocated, RoundTrip, RequestBytes, Inv;
    OneRoundTrip(n, w1, DISCOVER, NoAddr, NoAddr, now);
    var w2 := RoundTrip(n, w1, now);
    if LeaseOf(w2.ls, w.client.mac).IsValid() {
      OneRoundTrip(n, w2, REQUEST, w2.client.offered, w2.client.server, now);
    } else {
      OneRoundTrip(n, w2, DISCOVER, NoAddr, NoAddr, now);
    }
  }

  // ---------------------------------------------------------------- where transaction numbers collide

  /** The client tells its own acknowledgements by the transaction number alone: a client that asked for a lease
      or its renewal accepts one sent to any hardware address exactly when the numbers agree, and the address it then
      configures is its own lease exactly when the acknowledgement was for it. */
  lemma ForeignAck(n: Net, ls: seq<DhcpLease.Lease>, c: Client, to: Mac, xid: Four, now: int)
    requires Plain(n) && Tidy(ls, n.gateway)
    requires (c.state == Requesting || c.state == Renewing) && LeaseOf(ls, to).IsValid()
    ensures var d := Handled(c, ReplyBytes(xid, to, ACK, LeaseOf(ls, to), n.gateway, n.subnet), now);
            && (d.state == Bound <==> XidOf(xid) == c.xid)
            && (d.state == Bound ==> (d.cfg.ip == LeaseOf(ls, c.mac) <==> to == c.mac))
  {
    ReplyRoundTrip(c.xid, xid, to, ACK, LeaseOf(ls, to), n.gateway, n.subnet);
    TidyUnique(ls, n.gateway, to, c.mac);
    hide ReplyBytes, LeaseOf, Tidy, ClientView;
  }
}
