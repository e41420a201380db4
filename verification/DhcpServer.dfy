/** The DHCP server (stack/dhcpserver.go): what each client message does to the leases and is answered with. */
module DhcpServer {
  import opened Words
  import opened DhcpLease
  import opened DhcpWire

  datatype Answer = Answer(xid: Four, mac: Mac, msgType: byte, ip: Addr)

  function Leased(ls: seq<Lease>, gateway: Addr, h: Heard): (r: seq<Lease>)
    requires gateway.V4? && |ls| == MAX_LEASES
    ensures |r| == MAX_LEASES
  {
    if h.req.msgType == DISCOVER
       || (h.req.msgType == REQUEST && !LeaseOf(ls, h.mac).IsValid() && h.req.requested.IsValid())
    then Allocated(ls, gateway, h.mac)
    else ls
  }

  function Answers(ls: seq<Lease>, gateway: Addr, h: Heard): seq<Answer>
    requires gateway.V4? && |ls| == MAX_LEASES
  {
    var ip := LeaseOf(Leased(ls, gateway, h), h.mac);
    if !ip.IsValid() then []
    else if h.req.msgType == DISCOVER then [Answer(h.xid, h.mac, OFFER, ip)]
    else if h.req.msgType == REQUEST then [Answer(h.xid, h.mac, ACK, ip)]
    else []
  }

  function AnswerBytes(a: Answer, gateway: Addr, subnet: Addr): seq<byte> {
    ReplyBytes(a.xid, a.mac, a.msgType, a.ip, gateway, subnet)
  }

  /** One packet from the network: unheard ones change nothing. */
  function AfterPacket(ls: seq<Lease>, gateway: Addr, data: seq<byte>): (r: seq<Lease>)
    requires gateway.V4? && |ls| == MAX_LEASES
    ensures |r| == MAX_LEASES
  {
    match ServerView(data)
    case None => ls
    case Some(h) => Leased(ls, gateway, h)
  }

  function PacketAnswers(ls: seq<Lease>, gateway: Addr, data: seq<byte>): seq<Answer>
    requires gateway.V4? && |ls| == MAX_LEASES
  {
    match ServerView(data)
    case None => []
    case Some(h) => Answers(ls, gateway, h)
  }

  function Sent(xs: seq<Answer>, gateway: Addr, subnet: Addr): seq<seq<byte>> {
    if xs == [] then [] else [AnswerBytes(xs[0], gateway, subnet)] + Sent(xs[1..], gateway, subnet)
  }

  class Server {
    const table: LeaseTable
    var enabled: bool
    var subnet: Addr
    /** Everything broadcast so far. */
    var sent: seq<seq<byte>>

    ghost predicate Valid()
      reads this, table
    {
      table.Valid() && (enabled ==> table.gateway.V4? && subnet.V4?)
    }

    constructor ()
      ensures Valid() && !enabled && sent == [] && fresh(table) && fresh(table.leases)
      ensures table.leases[..] == seq(MAX_LEASES, _ => EMPTY)
    {
      table := new LeaseTable();
      enabled, subnet, sent := false, NoAddr, [];
    }

    method Start(gateway: Addr, mask: Addr)
      requires Valid() && gateway.V4? && mask.V4?
      modifies this`enabled, this`subnet, table`gateway
      ensures Valid() && enabled && table.gateway == gateway && subnet == mask
    {
      enabled := true;
      table.gateway := gateway;
      subnet := mask;
    }

    method HandlePacket(data: seq<byte>)
      requires Valid()
      modifies table.leases, this`sent
      ensures Valid()
      ensures !enabled ==> sent == old(sent) && table.leases[..] == old(table.leases[..])
      ensures enabled ==>
                && table.leases[..] == AfterPacket(old(table.leases[..]), table.gateway, data)
                && sent == old(sent)
                           + Sent(PacketAnswers(old(table.leases[..]), table.gateway, data), table.gateway, subnet)
    {
      hide Allocated, LeaseOf, AnswerBytes, RequestIn, Options;
      if !enabled || |data| < FIXED {
        return;
      }
      if data[0] != BOOT_REQUEST {
        return;
      }
      var xid: Four := data[4..8];
      var clientMac: Mac := data[28..34];
      CookieWord(data);
      if Be32(data[236], data[237], data[238], data[239]) != 0x63825363 {
        return;
      }
      var req := ScanRequest(data[FIXED..]);
      assert ServerView(data) == Some(Heard(xid, clientMac, req));
      ghost var ls := table.leases[..];
      if req.msgType == DISCOVER {
        var ip := table.Allocate(clientMac);
        if ip.IsValid() {
          SendReply(OFFER, xid, clientMac, ip);
        }
      } else if req.msgType == REQUEST {
        var ip := table.Lookup(clientMac);
        if !ip.IsValid() && req.requested.IsValid() {
          ip := table.Allocate(clientMac);
        }
        assert ip == LeaseOf(Leased(ls, table.gateway, Heard(xid, clientMac, req)), clientMac);
        if ip.IsValid() {
          SendReply(ACK, xid, clientMac, ip);
        }
      }
    }

    method SendReply(msgType: byte, xid: Four, mac: Mac, ip: Addr)
      requires Valid()
      modifies this`sent
      ensures Valid()
      ensures sent == old(sent) + Sent([Answer(xid, mac, msgType, ip)], table.gateway, subnet)
    {
      var pkt := BuildReply(xid, mac, msgType, ip, table.gateway, subnet);
      sent := sent + [pkt];
    }
  }

  // ---------------------------------------------------------------- runs

  /** Everything answered over a run of packets. */
  function AllAnswers(ls: seq<Lease>, gateway: Addr, packets: seq<seq<byte>>): seq<Answer>
    requires gateway.V4? && |ls| == MAX_LEASES
    decreases |packets|
  {
    if packets == [] then []
    else PacketAnswers(ls, gateway, packets[0])
         + AllAnswers(AfterPacket(ls, gateway, packets[0]), gateway, packets[1..])
  }

  function AfterPackets(ls: seq<Lease>, gateway: Addr, packets: seq<seq<byte>>): (r: seq<Lease>)
    requires gateway.V4? && |ls| == MAX_LEASES
    ensures |r| == MAX_LEASES
    decreases |packets|
  {
    if packets == [] then ls else AfterPackets(AfterPacket(ls, gateway, packets[0]), gateway, packets[1..])
  }

  /** A packet keeps the table tidy and every lease given. */
  lemma PacketKeeps(ls: seq<Lease>, gateway: Addr, data: seq<byte>, mac: Mac)
    requires Tidy(ls, gateway)
    ensures Tidy(AfterPacket(ls, gateway, data), gateway)
    ensures LeaseOf(ls, mac).IsValid() ==> LeaseOf(AfterPacket(ls, gateway, data), mac) == LeaseOf(ls, mac)
  {
    hide LeaseOf, Tidy, Allocated, ServerView;
    match ServerView(data) {
      case None =>
      case Some(h) =>
        AllocateTidy(ls, gateway, h.mac);
        if LeaseOf(ls, mac).IsValid() {
          LeaseStable(ls, gateway, mac, h.mac);
        }
    }
  }

  lemma {:induction false} PacketsKeep(ls: seq<Lease>, gateway: Addr, packets: seq<seq<byte>>, mac: Mac)
    requires Tidy(ls, gateway)
    ensures Tidy(AfterPackets(ls, gateway, packets), gateway)
    ensures LeaseOf(ls, mac).IsValid() ==> LeaseOf(AfterPackets(ls, gateway, packets), mac) == LeaseOf(ls, mac)
    decreases |packets|
  {
    assert gateway.V4? && |ls| == MAX_LEASES;
    hide LeaseOf, Tidy, AfterPacket;
    if packets == [] {
    } else {
      PacketKeeps(ls, gateway, packets[0], mac);
      PacketsKeep(AfterPacket(ls, gateway, packets[0]), gateway, packets[1..], mac);
    }
  }

  /** An offer or acknowledgement of the address leased to the hardware address it is for. */
  ghost predicate NamesLease(a: Answer, ls: seq<Lease>) {
    a.ip.IsValid() && a.ip == LeaseOf(ls, a.mac) && (a.msgType == OFFER || a.msgType == ACK)
  }

  lemma AnswerIsLease(ls: seq<Lease>, gateway: Addr, data: seq<byte>, k: nat)
    requires gateway.V4? && |ls| == MAX_LEASES && k < |PacketAnswers(ls, gateway, data)|
    ensures NamesLease(PacketAnswers(ls, gateway, data)[k], AfterPacket(ls, gateway, data))
  {
    hide LeaseOf, ServerView, Leased;
  }

  lemma AnswerStaysLease(ls: seq<Lease>, gateway: Addr, packets: seq<seq<byte>>, a: Answer)
    requires Tidy(ls, gateway) && NamesLease(a, ls)
    ensures NamesLease(a, AfterPackets(ls, gateway, packets))
  {
    hide Tidy, LeaseOf, AfterPackets;
    PacketsKeep(ls, gateway, packets, a.mac);
  }

  /** What this packet was answered with stays true. */
  lemma FirstAnswers(ls: seq<Lease>, gateway: Addr, packets: seq<seq<byte>>, k: nat)
    requires Tidy(ls, gateway) && packets != [] && k < |PacketAnswers(ls, gateway, packets[0])|
    ensures NamesLease(PacketAnswers(ls, gateway, packets[0])[k], AfterPackets(ls, gateway, packets))
  {
    assert gateway.V4? && |ls| == MAX_LEASES;
    hide Tidy, NamesLease, PacketAnswers, AfterPacket;
    PacketKeeps(ls, gateway, packets[0], [0, 0, 0, 0, 0, 0]);
    AnswerIsLease(ls, gateway, packets[0], k);
    var next := AfterPacket(ls, gateway, packets[0]);
    AnswerStaysLease(next, gateway, packets[1..], PacketAnswers(ls, gateway, packets[0])[k]);
  }

  /** Which of all answers are this packet's and which are later ones. */
  lemma LaterAnswers(ls: seq<Lease>, gateway: Addr, packets: seq<seq<byte>>, k: nat)
    requires gateway.V4? && |ls| == MAX_LEASES && k < |AllAnswers(ls, gateway, packets)|
    ensures packets != []
    ensures var now, next := PacketAnswers(ls, gateway, packets[0]), AfterPacket(ls, gateway, packets[0]);
            var later := AllAnswers(next, gateway, packets[1..]);
            && AfterPackets(ls, gateway, packets) == AfterPackets(next, gateway, packets[1..])
            && AllAnswers(ls, gateway, packets)[k] == (if k < |now| then now[k] else later[k - |now|])
            && (k >= |now| ==> k - |now| < |later|)
  {
    hide PacketAnswers, AfterPacket;
  }

  /** Over any run every answer names the one lease its hardware address ends up with. */
  lemma {:induction false} AnswersAreLeases(ls: seq<Lease>, gateway: Addr, packets: seq<seq<byte>>, k: nat)
    requires Tidy(ls, gateway) && k < |AllAnswers(ls, gateway, packets)|
    ensures NamesLease(AllAnswers(ls, gateway, packets)[k], AfterPackets(ls, gateway, packets))
    decreases |packets|
  {
    LaterAnswers(ls, gateway, packets, k);
    hide AllAnswers, AfterPackets, PacketAnswers, AfterPacket, NamesLease, Tidy;
    var n := |PacketAnswers(ls, gateway, packets[0])|;
    if k < n {
      FirstAnswers(ls, gateway, packets, k);
    } else {
      PacketKeeps(ls, gateway, packets[0], [0, 0, 0, 0, 0, 0]);
      AnswersAreLeases(AfterPacket(ls, gateway, packets[0]), gateway, packets[1..], k - n);
    }
  }

  /** Over any run from the empty table: two answers, offers or acknowledgements, carry the same address exactly
      when they are for the same hardware address, and no answer gives away the gateway's. */
  lemma AnswersAgree(gateway: Addr, packets: seq<seq<byte>>, i: nat, j: nat)
    requires gateway.V4?
    requires var xs := AllAnswers(seq(MAX_LEASES, _ => EMPTY), gateway, packets); i < |xs| && j < |xs|
    ensures var xs := AllAnswers(seq(MAX_LEASES, _ => EMPTY), gateway, packets);
            && (xs[i].ip == xs[j].ip <==> xs[i].mac == xs[j].mac)
            && xs[i].ip != gateway
  {
    hide LeaseOf, AllAnswers, AfterPackets;
    var start := seq(MAX_LEASES, _ => EMPTY);
    assert Tidy(start, gateway);
    hide Tidy;
    var xs := AllAnswers(start, gateway, packets);
    AnswersAreLeases(start, gateway, packets, i);
    AnswersAreLeases(start, gateway, packets, j);
    PacketsKeep(start, gateway, packets, xs[i].mac);
    TidyUnique(AfterPackets(start, gateway, packets), gateway, xs[i].mac, xs[j].mac);
  }
}
