/** UDP datagrams and TCP segments inside IPv4 frames: what sendUDP and sendTCP build is what HandleEth delivers
    (stack/udp.go, stack/tcp.go, stack/stack.go). */
module Transport {
  import opened Words
  import opened Rings
  import opened Checksum
  import opened Ipv4
  import Tcp

  const UDP_HEADER := 8
  const OPTION_MSS := 2

  /** The initial value that stands for the pseudo-header. */
  function Pseudo(src: Addr, dst: Addr, protocol: byte, length: u16): (sum: u32)
    ensures sum == WordSum(PseudoBytes(src, dst, protocol, length)) <= 6 * 0xFFFF
  {
    PseudoSmall(src, dst, protocol, length);
    WordSum(PseudoBytes(src, dst, protocol, length))
  }

  /** The transport header, its checksum field at offset k zeroed, and the data behind it, with the checksum
      stored; UDP does not send a zero. */
  function Sealed(blank: seq<byte>, k: nat, src: Addr, dst: Addr, protocol: byte): (s: seq<byte>)
    requires k + 1 < |blank| <= 0xFFFF
    ensures |s| == |blank|
  {
    var cs := Value(blank, Pseudo(src, dst, protocol, |blank|));
    Store(blank, k, if protocol == PROTO_UDP then UdpField(cs) else cs)
  }

  lemma PseudoSmall(src: Addr, dst: Addr, protocol: byte, length: u16)
    ensures WordSum(PseudoBytes(src, dst, protocol, length)) <= 6 * 0xFFFF
  {
    WordSumBound(PseudoBytes(src, dst, protocol, length));
  }

  /** Whoever checks a sealed datagram or segment with its pseudo-header finds it good. */
  lemma SealedChecks(blank: seq<byte>, k: nat, src: Addr, dst: Addr, protocol: byte)
    requires k + 1 < |blank| <= 0xFFFF && k % 2 == 0 && blank[k] == blank[k + 1] == 0
    ensures var s := Sealed(blank, k, src, dst, protocol);
            Value(s, Pseudo(src, dst, protocol, |s|)) == 0
  {
    hide Value, WordSum, PseudoBytes, Store;
    StoredChecksumVerifies(blank, Pseudo(src, dst, protocol, |blank|), k);
  }

  /** The checksum of what lies in the packet buffer from the transport offset on. */
  method Seal(txPkt: array<byte>, totalLen: nat, k: nat, src: Addr, dst: Addr, protocol: byte)
    requires txPkt.Length == TX_PKT && TRANSPORT + totalLen <= TX_PKT && k + 1 < totalLen
    modifies txPkt
    ensures txPkt[TRANSPORT..TRANSPORT + totalLen] ==
            Sealed(old(txPkt[TRANSPORT..TRANSPORT + totalLen]), k, src, dst, protocol)
  {
    hide Value, WordSum, PseudoBytes, Hi, Lo;
    ghost var b := txPkt[..];
    var phcs := PseudoHeader(src, dst, protocol, totalLen);
    var cs := Compute(txPkt[TRANSPORT..TRANSPORT + totalLen], phcs);
    if protocol == PROTO_UDP && cs == 0 {
      cs := 0xFFFF;
    }
    txPkt[TRANSPORT + k], txPkt[TRANSPORT + k + 1] := Hi(cs), Lo(cs);
    StoreInside(b, TRANSPORT, TRANSPORT + totalLen, k, cs);
    assert txPkt[..] == Store(b, TRANSPORT + k, cs);
    assert txPkt[TRANSPORT..TRANSPORT + totalLen] == txPkt[..][TRANSPORT..TRANSPORT + totalLen];
  }

  lemma StoreInside(b: seq<byte>, lo: nat, hi: nat, k: nat, w: u16)
    requires lo + k + 1 < hi <= |b|
    ensures Store(b, lo + k, w)[lo..hi] == Store(b[lo..hi], k, w)
  {
    hide Hi, Lo;
  }

  // ---------------------------------------------------------------- UDP

  function UdpBlank(srcPort: u16, dstPort: u16, data: seq<byte>): (s: seq<byte>)
    requires UDP_HEADER + |data| <= 0xFFFF
    ensures |s| == UDP_HEADER + |data|
  {
    Bytes16(srcPort) + Bytes16(dstPort) + Bytes16(UDP_HEADER + |data|) + [0, 0] + data
  }

  function UdpFrame(h: Host, dstMac: Mac, dst: Addr, srcPort: u16, dstPort: u16, data: seq<byte>): seq<byte>
    requires IP + UDP_HEADER + |data| <= MTU
  {
    IpFrame(h, dstMac, dst, PROTO_UDP, Sealed(UdpBlank(srcPort, dstPort, data), 6, h.ip, dst, PROTO_UDP))
  }

  /** A datagram beyond the packet buffer makes the checksum's slice panic before any size is checked. */
  method SendUdp(h: Host, txPkt: array<byte>, hop: Option<Mac>, dst: Addr, srcPort: u16, dstPort: u16, data: seq<byte>)
    returns (r: Sent)
    requires txPkt.Length == TX_PKT && dst.V4?
    modifies txPkt
    ensures hop == None ==> r == NoRoute
    ensures hop.Some? && IP + UDP_HEADER + |data| > MTU ==> r == PanickedSending
    ensures hop.Some? && IP + UDP_HEADER + |data| <= MTU ==>
              r == Frame(UdpFrame(h, hop.value, dst, srcPort, dstPort, data))
  {
    hide Sealed, IpFrame, UdpBlank;
    if hop == None {
      return NoRoute;
    }
    var totalLen := UDP_HEADER + |data|;
    PutUdp(txPkt, srcPort, dstPort, data);
    if totalLen > TX_PKT - TRANSPORT {
      return PanickedSending;
    }
    Seal(txPkt, totalLen, 6, h.ip, dst, PROTO_UDP);
    r := SendIpv4(h, txPkt, hop.value, dst, PROTO_UDP, totalLen);
  }

  /** Header and data, as much of it as the buffer takes. */
  method PutUdp(txPkt: array<byte>, srcPort: u16, dstPort: u16, data: seq<byte>)
    requires txPkt.Length == TX_PKT
    modifies txPkt
    ensures TRANSPORT + UDP_HEADER + |data| <= TX_PKT ==>
              txPkt[TRANSPORT..TRANSPORT + UDP_HEADER + |data|] == UdpBlank(srcPort, dstPort, data)
  {
    hide UdpBlank, Bytes16;
    var room := TX_PKT - TRANSPORT - UDP_HEADER;
    var lenField := (UDP_HEADER + |data|) % TWO16;
    ghost var b0 := txPkt[..];
    CopyIn(txPkt, TRANSPORT, Bytes16(srcPort) + Bytes16(dstPort) + Bytes16(lenField) + [0, 0]);
    ghost var b1 := txPkt[..];
    CopyIn(txPkt, TRANSPORT + UDP_HEADER, if |data| <= room then data else data[..room]);
    if |data| <= room {
      UdpPlaced(b0, b1, txPkt[..], srcPort, dstPort, data);
      ghost var n := UDP_HEADER + |data|;
      assert txPkt[TRANSPORT..TRANSPORT + n] == txPkt[..][TRANSPORT..TRANSPORT + n];
    }
  }

  lemma UdpPlaced(b0: seq<byte>, b1: seq<byte>, b2: seq<byte>, srcPort: u16, dstPort: u16, data: seq<byte>)
    requires |b0| == TX_PKT && TRANSPORT + UDP_HEADER + |data| <= TX_PKT
    requires b1 == b0[..34] + (Bytes16(srcPort) + Bytes16(dstPort) + Bytes16(UDP_HEADER + |data|) + [0, 0]) + b0[42..]
    requires b2 == b1[..42] + data + b1[42 + |data|..]
    ensures b2[TRANSPORT..TRANSPORT + UDP_HEADER + |data|] == UdpBlank(srcPort, dstPort, data)
  {
    hide Bytes16;
  }

  // ---------------------------------------------------------------- TCP

  function FlagsByte(f: Tcp.Flags): byte {
    (if f.fin then 1 else 0) + (if f.syn then 2 else 0) + (if f.rst then 4 else 0)
    + (if f.psh then 8 else 0) + (if f.ack then 16 else 0)
  }

  function FlagsOf(b: byte): Tcp.Flags {
    Tcp.Flags(b % 2 == 1, b / 2 % 2 == 1, b / 4 % 2 == 1, b / 8 % 2 == 1, b / 16 % 2 == 1)
  }

  lemma FlagsRoundTrip(f: Tcp.Flags)
    ensures FlagsOf(FlagsByte(f)) == f
  {
  }

  function HeaderLen(syn: bool): nat {
    if syn then Tcp.SYN_HEADER else Tcp.TCP_HEADER
  }

  function TcpHeader(srcPort: u16, dstPort: u16, seqNum: u32, ackNum: u32, f: Tcp.Flags, window: u16): (s: seq<byte>)
    ensures |s| == Tcp.TCP_HEADER
  {
    Bytes16(srcPort) + Bytes16(dstPort) + Bytes32(seqNum) + Bytes32(ackNum)
    + [HeaderLen(f.syn) / 4 * 16, FlagsByte(f)] + Bytes16(window) + [0, 0, 0, 0]
  }

  function MssBytes(mss: u16): (s: seq<byte>)
    ensures |s| == 4
  {
    [OPTION_MSS, 4] + Bytes16(mss)
  }

  function MssOption(syn: bool): (s: seq<byte>)
    ensures |s| == HeaderLen(syn) - Tcp.TCP_HEADER
  {
    if syn then MssBytes(Tcp.MAX_SEG) else []
  }

  /** A segment as sendTCP lays it out; only a SYN carries the MSS option. */
  function TcpBlank(srcPort: u16, dstPort: u16, s: Tcp.Segment): seq<byte> {
    TcpHeader(srcPort, dstPort, s.seqNum, s.ackNum, s.flags, s.window) + MssOption(s.flags.syn) + s.data
  }

  ghost predicate Fits(s: Tcp.Segment) {
    s.mss == Tcp.MAX_SEG && IP + HeaderLen(s.flags.syn) + |s.data| <= MTU
  }

  function TcpFrame(h: Host, dstMac: Mac, dst: Addr, local: Addr, srcPort: u16, dstPort: u16, s: Tcp.Segment): seq<byte>
    requires Fits(s)
  {
    IpFrame(h, dstMac, dst, PROTO_TCP, Sealed(TcpBlank(srcPort, dstPort, s), 16, local, dst, PROTO_TCP))
  }

  /** The payload is already in the packet buffer behind the header; local is the socket's own address. */
  method SendTcp(h: Host, txPkt: array<byte>, dstMac: Mac, dst: Addr, local: Addr, srcPort: u16, dstPort: u16,
                 seqNum: u32, ackNum: u32, f: Tcp.Flags, window: u16, payloadLen: nat)
    returns (r: Sent)
    requires txPkt.Length == TX_PKT && dst.V4? && IP + HeaderLen(f.syn) + payloadLen <= MTU
    modifies txPkt
    ensures var at := TRANSPORT + HeaderLen(f.syn);
            var s := Tcp.Segment(seqNum, ackNum, f, window, Tcp.MAX_SEG, old(txPkt[at..at + payloadLen]));
            r == Frame(TcpFrame(h, dstMac, dst, local, srcPort, dstPort, s))
  {
    hide Sealed, IpFrame, TcpHeader, MssOption;
    var hdrLen := Tcp.TCP_HEADER;
    if f.syn {
      hdrLen := Tcp.SYN_HEADER;
    }
    ghost var b0 := txPkt[..];
    ghost var data := txPkt[TRANSPORT + hdrLen..TRANSPORT + hdrLen + payloadLen];
    assert data == b0[TRANSPORT + hdrLen..TRANSPORT + hdrLen + payloadLen];
    PutHeader(txPkt, srcPort, dstPort, seqNum, ackNum, f, window);
    ghost var b1 := txPkt[..];
    PutMss(txPkt, f.syn);
    var totalLen := hdrLen + payloadLen;
    TcpPlaced(b0, b1, txPkt[..], TcpHeader(srcPort, dstPort, seqNum, ackNum, f, window), MssOption(f.syn), data);
    assert txPkt[TRANSPORT..TRANSPORT + totalLen] == txPkt[..][TRANSPORT..TRANSPORT + totalLen];
    Seal(txPkt, totalLen, 16, local, dst, PROTO_TCP);
    r := SendIpv4(h, txPkt, dstMac, dst, PROTO_TCP, totalLen);
  }

  method PutHeader(txPkt: array<byte>, srcPort: u16, dstPort: u16, seqNum: u32, ackNum: u32, f: Tcp.Flags, window: u16)
    requires txPkt.Length == TX_PKT
    modifies txPkt
    ensures txPkt[..] == old(txPkt[..34]) + TcpHeader(srcPort, dstPort, seqNum, ackNum, f, window) + old(txPkt[54..])
  {
    hide Bytes16, Bytes32, FlagsByte;
    ghost var b0 := txPkt[..];
    var x := Bytes16(srcPort) + Bytes16(dstPort) + Bytes32(seqNum) + Bytes32(ackNum);
    var y := [HeaderLen(f.syn) / 4 * 16, FlagsByte(f)] + Bytes16(window) + [0, 0, 0, 0];
    CopyIn(txPkt, TRANSPORT, x);
    ghost var b1 := txPkt[..];
    CopyIn(txPkt, TRANSPORT + 12, y);
    CopiedInTwo(b0, b1, txPkt[..], TRANSPORT, x, y);
    assert x + y == TcpHeader(srcPort, dstPort, seqNum, ackNum, f, window);
  }

  method PutMss(txPkt: array<byte>, syn: bool)
    requires txPkt.Length == TX_PKT
    modifies txPkt
    ensures txPkt[..] == old(txPkt[..54]) + MssOption(syn) + old(txPkt[54 + |MssOption(syn)|..])
  {
    hide MssBytes;
    if syn {
      CopyIn(txPkt, TRANSPORT + Tcp.TCP_HEADER, MssBytes(Tcp.MAX_SEG));
    }
  }

  lemma TcpPlaced(b0: seq<byte>, b1: seq<byte>, b2: seq<byte>, head: seq<byte>, opt: seq<byte>, data: seq<byte>)
    requires |b0| == TX_PKT && |head| == 20 && 54 + |opt| + |data| <= TX_PKT
    requires b1 == b0[..34] + head + b0[54..]
    requires b2 == b1[..54] + opt + b1[54 + |opt|..]
    requires data == b0[54 + |opt|..54 + |opt| + |data|]
    ensures b2[34..54 + |opt| + |data|] == head + opt + data
  {
    assert b2[34..54] == b1[34..54] == head;
    assert b2[54..54 + |opt|] == opt;
    assert b2[54 + |opt|..54 + |opt| + |data|] == data;
  }
}
