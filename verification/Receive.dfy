/** Frames from the network taken apart (stack/stack.go, stack/udp.go, stack/tcp.go), and the round trips: what one
    host builds another one reads back. */
module Receive {
  import opened Words
  import opened Checksum
  import opened Ipv4
  import opened Transport
  import Tcp
  import TcpOptions

  datatype Input =
    | Nothing
    | Panic
    | Arp(frame: seq<byte>)
    | Other(protocol: byte, src: Addr, data: seq<byte>)
    | Datagram(src: Addr, srcPort: u16, dstPort: u16, data: seq<byte>)
    | Segment(src: Addr, srcPort: u16, dstPort: u16, seg: Tcp.Segment)

  function ReceiveUdp(src: Addr, p: seq<byte>): Input {
    if |p| < UDP_HEADER then Nothing
    else Datagram(src, Be16(p[0], p[1]), Be16(p[2], p[3]), p[UDP_HEADER..])
  }

  function MssOf(flags: Tcp.Flags, options: seq<byte>): u16 {
    if flags.syn && options != [] then TcpOptions.FirstMss(TcpOptions.Options(options)) else Tcp.MAX_SEG
  }

  function ReceiveTcp(src: Addr, p: seq<byte>): Input
    requires |p| <= 0xFFFF
  {
    if |p| < Tcp.TCP_HEADER then Nothing else
    var dataOff: nat := p[12] / 16 * 4;
    if dataOff < Tcp.TCP_HEADER || dataOff > |p| then Nothing else
    var flags := FlagsOf(p[13]);
    Segment(src, Be16(p[0], p[1]), Be16(p[2], p[3]),
            Tcp.Segment(Be32(p[4], p[5], p[6], p[7]), Be32(p[8], p[9], p[10], p[11]), flags, Be16(p[14], p[15]),
                        MssOf(flags, p[Tcp.TCP_HEADER..dataOff]), p[dataOff..]))
  }

  function ReceiveEth(own: Addr, frame: seq<byte>): Input {
    if |frame| < ETH || frame[12] != 8 then Nothing
    else if frame[13] == 6 then Arp(frame)
    else if frame[13] != 0 then Nothing
    else
      match ReceiveIpv4(own, frame[ETH..])
      case Ignored => Nothing
      case Panicked => Panic
      case Payload(protocol, src, data) =>
        if protocol == PROTO_TCP then ReceiveTcp(src, data)
        else if protocol == PROTO_UDP then ReceiveUdp(src, data)
        else Other(protocol, src, data)
  }

  method HandleTcp(src: Addr, p: seq<byte>) returns (r: Input)
    requires |p| <= 0xFFFF
    ensures r == ReceiveTcp(src, p)
  {
    hide FlagsOf;
    if |p| < Tcp.TCP_HEADER {
      return Nothing;
    }
    var srcPort, dstPort := Be16(p[0], p[1]), Be16(p[2], p[3]);
    var seqNum, ackNum := Be32(p[4], p[5], p[6], p[7]), Be32(p[8], p[9], p[10], p[11]);
    var dataOff: nat := p[12] / 16 * 4;
    var flags := FlagsOf(p[13]);
    var window := Be16(p[14], p[15]);
    if dataOff < Tcp.TCP_HEADER || dataOff > |p| {
      return Nothing;
    }
    var mss := Tcp.MAX_SEG;
    if flags.syn && dataOff > Tcp.TCP_HEADER {
      mss := TcpOptions.ParseMss(p[Tcp.TCP_HEADER..dataOff]);
    }
    r := Segment(src, srcPort, dstPort, Tcp.Segment(seqNum, ackNum, flags, window, mss, p[dataOff..]));
  }

  method HandleEth(own: Addr, frame: seq<byte>) returns (r: Input)
    ensures r == ReceiveEth(own, frame)
  {
    hide ReceiveIpv4, ReceiveTcp;
    if |frame| < ETH {
      return Nothing;
    }
    var etherType := Be16(frame[12], frame[13]);
    if etherType == 0x0806 {
      return Arp(frame);
    }
    if etherType != 0x0800 {
      return Nothing;
    }
    var pkt := HandleIpv4(own, frame[ETH..]);
    match pkt {
      case Ignored => return Nothing;
      case Panicked => return Panic;
      case Payload(protocol, src, data) =>
        if protocol == PROTO_TCP {
          r := HandleTcp(src, data);
        } else if protocol == PROTO_UDP {
          r := ReceiveUdp(src, data);
        } else {
          r := Other(protocol, src, data);
        }
    }
  }

  // ---------------------------------------------------------------- round trips

  /** Any frame around a payload, with any padding the link adds, delivers that payload to the hosts it is for. */
  lemma FrameDelivers(own: Addr, h: Host, dstMac: Mac, dst: Addr, protocol: byte, p: seq<byte>, padding: seq<byte>)
    requires IP + |p| <= MTU && dst.V4?
    ensures ReceiveEth(own, IpFrame(h, dstMac, dst, protocol, p) + padding) ==
            if !IsForUs(own, dst) then Nothing
            else if protocol == PROTO_TCP then ReceiveTcp(AsRead(h.ip), p)
            else if protocol == PROTO_UDP then ReceiveUdp(AsRead(h.ip), p)
            else Other(protocol, AsRead(h.ip), p)
  {
    hide ReceiveTcp, ReceiveUdp, Header, ReceiveIpv4;
    Ipv4RoundTrip(own, h.ip, dst, protocol, p, padding);
    EthRead(EthHeader(dstMac, h.mac), Header(h.ip, dst, protocol, IP + |p|), p, padding);
  }

  lemma EthRead(eth: seq<byte>, header: seq<byte>, p: seq<byte>, padding: seq<byte>)
    requires |eth| == ETH
    ensures var frame := eth + header + p + padding;
            |frame| >= ETH && frame[ETH..] == header + p + padding && frame[12] == eth[12] && frame[13] == eth[13]
  {
  }

  lemma TcpNeverPanics(src: Addr, p: seq<byte>)
    requires |p| <= 0xFFFF
    ensures ReceiveTcp(src, p) != Panic
  {
  }

  /** Exactly then the whole receive path panics. */
  lemma ShortTotalFrame(own: Addr, eth: seq<byte>, src: Addr, dst: Addr, protocol: byte, totalLen: u16,
                        options: seq<byte>, rest: seq<byte>)
    requires |eth| == ETH && Be16(eth[12], eth[13]) == 0x0800 && |options| % 4 == 0 && |options| <= 40
    ensures ReceiveEth(own, eth + (LongHeader(src, dst, protocol, totalLen, options) + rest)) == Panic <==>
            IsForUs(own, AsRead(dst)) && totalLen < IP + |options|
  {
    ShortTotalPanics(own, src, dst, protocol, totalLen, options, rest);
    hide LongHeader, ReceiveIpv4, ReceiveTcp;
    var pkt := LongHeader(src, dst, protocol, totalLen, options) + rest;
    assert (eth + pkt)[ETH..] == pkt;
    if ReceiveIpv4(own, pkt).Payload? {
      TcpNeverPanics(ReceiveIpv4(own, pkt).src, ReceiveIpv4(own, pkt).data);
    }
  }

  lemma SealedKeeps(blank: seq<byte>, k: nat, src: Addr, dst: Addr, protocol: byte)
    requires k + 1 < |blank| <= 0xFFFF
    ensures var s := Sealed(blank, k, src, dst, protocol);
            s[..k] == blank[..k] && s[k + 2..] == blank[k + 2..]
  {
    hide Value, Pseudo, UdpField;
  }

  lemma PortsRead(srcPort: u16, dstPort: u16, s: seq<byte>)
    requires |s| >= 4 && s[..4] == Bytes16(srcPort) + Bytes16(dstPort)
    ensures Be16(s[0], s[1]) == srcPort && Be16(s[2], s[3]) == dstPort
  {
    hide Bytes16;
    var h := s[..4];
    assert h[0] == Bytes16(srcPort)[0] && h[1] == Bytes16(srcPort)[1];
    assert h[2] == Bytes16(dstPort)[0] && h[3] == Bytes16(dstPort)[1];
  }

  lemma UdpParts(srcPort: u16, dstPort: u16, data: seq<byte>)
    requires UDP_HEADER + |data| <= 0xFFFF
    ensures var p := UdpBlank(srcPort, dstPort, data);
            p[..6][..4] == Bytes16(srcPort) + Bytes16(dstPort) && p[8..] == data
  {
    hide Bytes16;
  }

  lemma UdpRead(srcPort: u16, dstPort: u16, data: seq<byte>, src: Addr, dst: Addr, from: Addr)
    requires UDP_HEADER + |data| <= 0xFFFF
    ensures ReceiveUdp(from, Sealed(UdpBlank(srcPort, dstPort, data), 6, src, dst, PROTO_UDP))
         == Datagram(from, srcPort, dstPort, data)
  {
    hide Sealed, UdpBlank, Bytes16, Be16;
    var p := UdpBlank(srcPort, dstPort, data);
    SealedKeeps(p, 6, src, dst, PROTO_UDP);
    UdpParts(srcPort, dstPort, data);
    var s := Sealed(p, 6, src, dst, PROTO_UDP);
    assert s[..4] == s[..6][..4];
    PortsRead(srcPort, dstPort, s);
  }

  /** A datagram built within the MTU reaches its addressee, everybody if it was sent to a multicast address or to all,
      and every host that has no address yet: with its addresses, ports and data. */
  lemma UdpRoundTrip(own: Addr, h: Host, dstMac: Mac, dst: Addr, srcPort: u16, dstPort: u16, data: seq<byte>,
                     padding: seq<byte>)
    requires IP + UDP_HEADER + |data| <= MTU && dst.V4?
    ensures ReceiveEth(own, UdpFrame(h, dstMac, dst, srcPort, dstPort, data) + padding) ==
            if own == NoAddr || dst == own || 224 <= dst.a < 240 || dst == V4(255, 255, 255, 255)
            then Datagram(AsRead(h.ip), srcPort, dstPort, data) else Nothing
  {
    hide Sealed, IpFrame, ReceiveUdp, ReceiveEth;
    var p := Sealed(UdpBlank(srcPort, dstPort, data), 6, h.ip, dst, PROTO_UDP);
    hide UdpBlank;
    FrameDelivers(own, h, dstMac, dst, PROTO_UDP, p, padding);
    UdpRead(srcPort, dstPort, data, h.ip, dst, AsRead(h.ip));
  }

  lemma MssBytesRead(mss: u16)
    ensures TcpOptions.FirstMss(TcpOptions.Options(MssBytes(mss))) == mss
  {
    hide TcpOptions.Options, TcpOptions.FirstMss, Bytes16;
    TcpOptions.MssAlone(mss);
  }

  lemma MssRead(flags: Tcp.Flags)
    ensures MssOf(flags, MssOption(flags.syn)) == Tcp.MAX_SEG
  {
    MssBytesRead(Tcp.MAX_SEG);
    hide TcpOptions.Options, TcpOptions.FirstMss, MssBytes;
  }

  lemma HeaderRead(srcPort: u16, dstPort: u16, seqNum: u32, ackNum: u32, f: Tcp.Flags, window: u16, s: seq<byte>)
    requires |s| >= 16 && s[..16] == TcpHeader(srcPort, dstPort, seqNum, ackNum, f, window)[..16]
    ensures Be16(s[0], s[1]) == srcPort && Be16(s[2], s[3]) == dstPort
    ensures Be32(s[4], s[5], s[6], s[7]) == seqNum && Be32(s[8], s[9], s[10], s[11]) == ackNum
    ensures s[12] == HeaderLen(f.syn) / 4 * 16 && s[13] == FlagsByte(f) && Be16(s[14], s[15]) == window
  {
    hide Bytes16, Bytes32, HeaderLen, FlagsByte;
    var h := s[..16];
    assert h[..2] == Bytes16(srcPort) && h[2..4] == Bytes16(dstPort);
    assert h[4..8] == Bytes32(seqNum) && h[8..12] == Bytes32(ackNum);
    assert h[14..16] == Bytes16(window);
    assert s[0] == h[..2][0] && s[1] == h[..2][1] && s[2] == h[2..4][0] && s[3] == h[2..4][1];
    assert s[4] == h[4..8][0] && s[5] == h[4..8][1] && s[6] == h[4..8][2] && s[7] == h[4..8][3];
    assert s[8] == h[8..12][0] && s[9] == h[8..12][1] && s[10] == h[8..12][2] && s[11] == h[8..12][3];
    assert s[14] == h[14..16][0] && s[15] == h[14..16][1];
  }

  lemma TcpParts(head: seq<byte>, opt: seq<byte>, data: seq<byte>, s: seq<byte>)
    requires |head| == Tcp.TCP_HEADER && |s| == |head + opt + data|
    requires s[..16] == (head + opt + data)[..16] && s[18..] == (head + opt + data)[18..]
    ensures s[..16] == head[..16]
    ensures s[20..20 + |opt|] == opt && s[20 + |opt|..] == data
  {
    var p := head + opt + data;
    assert s[20..20 + |opt|] == s[18..][2..2 + |opt|] && p[20..20 + |opt|] == p[18..][2..2 + |opt|];
    assert s[20 + |opt|..] == s[18..][2 + |opt|..] && p[20 + |opt|..] == p[18..][2 + |opt|..];
  }

  lemma OffsetRead(syn: bool, b: byte)
    requires b == HeaderLen(syn) / 4 * 16
    ensures b / 16 * 4 == HeaderLen(syn)
  {
  }

  lemma TcpBodyRead(srcPort: u16, dstPort: u16, seg: Tcp.Segment, s: seq<byte>, from: Addr)
    requires 20 + |MssOption(seg.flags.syn)| + |seg.data| == |s| <= 0xFFFF && seg.mss == Tcp.MAX_SEG
    requires s[..16] == TcpHeader(srcPort, dstPort, seg.seqNum, seg.ackNum, seg.flags, seg.window)[..16]
    requires var off := 20 + |MssOption(seg.flags.syn)|; s[20..off] == MssOption(seg.flags.syn) && s[off..] == seg.data
    ensures ReceiveTcp(from, s) == Segment(from, srcPort, dstPort, seg)
  {
    assert 20 + |MssOption(seg.flags.syn)| == HeaderLen(seg.flags.syn);
    hide TcpHeader, MssOption, MssOf, FlagsOf, FlagsByte, Be16, Be32, HeaderLen;
    HeaderRead(srcPort, dstPort, seg.seqNum, seg.ackNum, seg.flags, seg.window, s);
    OffsetRead(seg.flags.syn, s[12]);
    FlagsRoundTrip(seg.flags);
    MssRead(seg.flags);
  }

  lemma TcpRead(srcPort: u16, dstPort: u16, seg: Tcp.Segment, src: Addr, dst: Addr, from: Addr)
    requires Fits(seg)
    ensures var s := Sealed(TcpBlank(srcPort, dstPort, seg), 16, src, dst, PROTO_TCP);
            |s| <= 0xFFFF && ReceiveTcp(from, s) == Segment(from, srcPort, dstPort, seg)
  {
    hide TcpHeader, Sealed, MssOption, ReceiveTcp;
    var p := TcpBlank(srcPort, dstPort, seg);
    SealedKeeps(p, 16, src, dst, PROTO_TCP);
    var s := Sealed(p, 16, src, dst, PROTO_TCP);
    TcpParts(TcpHeader(srcPort, dstPort, seg.seqNum, seg.ackNum, seg.flags, seg.window), MssOption(seg.flags.syn),
             seg.data, s);
    TcpBodyRead(srcPort, dstPort, seg, s, from);
  }

  /** A segment built within the MTU reaches the same hosts: addresses, ports, sequence and
      acknowledgement numbers, flags, window, MSS and payload are read back as they were sent. */
  lemma TcpRoundTrip(own: Addr, h: Host, dstMac: Mac, dst: Addr, srcPort: u16, dstPort: u16, seg: Tcp.Segment,
                     padding: seq<byte>)
    requires Fits(seg) && dst.V4?
    ensures ReceiveEth(own, TcpFrame(h, dstMac, dst, h.ip, srcPort, dstPort, seg) + padding) ==
            if own == NoAddr || dst == own || 224 <= dst.a < 240 || dst == V4(255, 255, 255, 255)
            then Segment(AsRead(h.ip), srcPort, dstPort, seg) else Nothing
  {
    hide IpFrame, ReceiveTcp, ReceiveEth;
    var p := Sealed(TcpBlank(srcPort, dstPort, seg), 16, h.ip, dst, PROTO_TCP);
    hide Sealed, TcpBlank;
    FrameDelivers(own, h, dstMac, dst, PROTO_TCP, p, padding);
    TcpRead(srcPort, dstPort, seg, h.ip, dst, AsRead(h.ip));
  }

  /** Both kinds of payload verify under the pseudo-header a receiver forms from the addresses it reads. */
  lemma PayloadsCheck(h: Host, dst: Addr, srcPort: u16, dstPort: u16, data: seq<byte>, seg: Tcp.Segment)
    requires IP + UDP_HEADER + |data| <= MTU && Fits(seg)
    ensures var u := Sealed(UdpBlank(srcPort, dstPort, data), 6, h.ip, dst, PROTO_UDP);
            Value(u, Pseudo(AsRead(h.ip), dst, PROTO_UDP, |u|)) == 0
    ensures var t := Sealed(TcpBlank(srcPort, dstPort, seg), 16, h.ip, dst, PROTO_TCP);
            Value(t, Pseudo(AsRead(h.ip), dst, PROTO_TCP, |t|)) == 0
  {
    hide Value, WordSum, Sealed;
    assert AsRead(h.ip).Bytes() == h.ip.Bytes();
    SealedChecks(UdpBlank(srcPort, dstPort, data), 6, h.ip, dst, PROTO_UDP);
    SealedChecks(TcpBlank(srcPort, dstPort, seg), 16, h.ip, dst, PROTO_TCP);
  }
}
