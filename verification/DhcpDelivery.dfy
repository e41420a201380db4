/** DHCP over the stack's own UDP: client and server broadcast, and whoever has no address yet, or another one, still
    hears it (section 4.1 of RFC 2131). */
module DhcpDelivery {
  import opened Words
  import opened DhcpWire
  import Ipv4
  import Transport
  import Receive

  const CLIENT_PORT := 68
  const SERVER_PORT := 67
  const TO_ALL := V4(255, 255, 255, 255)
  const ALL_MACS: Mac := [0xFF, 0xFF, 0xFF, 0xFF, 0xFF, 0xFF]

  lemma {:induction false} ShortOptions(os: seq<Tlv>)
    requires Encodable(os) && forall i | 0 <= i < |os| :: |os[i].val| <= 4
    ensures |EncodeOptions(os)| <= 6 * |os|
  {
    if os == [] {
    } else {
      ShortOptions(os[1..]);
    }
  }

  lemma RequestSize(xid: u32, mac: Mac, msgType: byte, requested: Addr, server: Addr)
    ensures |RequestBytes(xid, mac, msgType, requested, server)| <= BUFFER
  {
    ShortOptions(RequestOptions(msgType, requested, server));
    hide EncodeOptions;
  }

  lemma ReplySize(xid: Four, mac: Mac, msgType: byte, ip: Addr, gateway: Addr, subnet: Addr)
    ensures |ReplyBytes(xid, mac, msgType, ip, gateway, subnet)| <= BUFFER
  {
    ShortOptions(ReplyOptions(msgType, gateway, subnet));
    hide EncodeOptions;
  }

  /** What a client broadcasts is heard by the server behind any stack, as the client meant it. */
  lemma RequestHeard(own: Addr, h: Ipv4.Host, xid: u32, mac: Mac, msgType: byte, requested: Addr, server: Addr,
                     padding: seq<byte>)
    ensures var data := RequestBytes(xid, mac, msgType, requested, server);
            && |data| <= BUFFER
            && ServerView(data) == Some(Heard(Bytes32(xid), mac, Request(msgType, requested)))
            && var frame := Transport.UdpFrame(h, ALL_MACS, TO_ALL, CLIENT_PORT, SERVER_PORT, data);
               Receive.ReceiveEth(own, frame + padding)
               == Receive.Datagram(Ipv4.AsRead(h.ip), CLIENT_PORT, SERVER_PORT, data)
  {
    RequestSize(xid, mac, msgType, requested, server);
    hide RequestBytes, ServerView, Receive.ReceiveEth, Transport.UdpFrame;
    RequestRoundTrip(xid, mac, msgType, requested, server);
    Receive.UdpRoundTrip(own, h, ALL_MACS, TO_ALL, CLIENT_PORT, SERVER_PORT,
                         RequestBytes(xid, mac, msgType, requested, server), padding);
  }

  /** And the server's answer reaches the client whether or not that has an address. */
  lemma ReplyHeard(own: Addr, h: Ipv4.Host, to: Four, mac: Mac, msgType: byte, ip: Addr, gateway: Addr, subnet: Addr,
                   padding: seq<byte>)
    requires ip.V4? && gateway.V4? && subnet.V4?
    ensures var data := ReplyBytes(to, mac, msgType, ip, gateway, subnet);
            && |data| <= BUFFER
            && ClientView(XidOf(to), data) == Some(Got(ip, Reply(msgType, subnet, gateway, gateway, gateway, 3600)))
            && var frame := Transport.UdpFrame(h, ALL_MACS, TO_ALL, SERVER_PORT, CLIENT_PORT, data);
               Receive.ReceiveEth(own, frame + padding)
               == Receive.Datagram(Ipv4.AsRead(h.ip), SERVER_PORT, CLIENT_PORT, data)
  {
    ReplySize(to, mac, msgType, ip, gateway, subnet);
    hide ReplyBytes, ClientView, XidOf, Receive.ReceiveEth, Transport.UdpFrame;
    ReplyRoundTrip(XidOf(to), to, mac, msgType, ip, gateway, subnet);
    Receive.UdpRoundTrip(own, h, ALL_MACS, TO_ALL, SERVER_PORT, CLIENT_PORT,
                         ReplyBytes(to, mac, msgType, ip, gateway, subnet), padding);
  }
}
