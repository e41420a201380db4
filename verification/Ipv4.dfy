/** IPv4 frames: sendIPv4 writes them around a payload already in the packet buffer, handleIPv4 takes them
    apart (stack/ipv4.go, stack/stack.go). */
module Ipv4 {
  import opened Words
  import opened Rings
  import opened Checksum

  const ETH := 14
  const IP := 20
  const TRANSPORT := 34
  const MTU := 1500
  const TX_PKT := 1514
  const PROTO_TCP := 6
  const PROTO_UDP := 17

  /** The stack's own hardware address and IP address. */
  datatype Host = Host(mac: Mac, ip: Addr)

  datatype Sent = Frame(bytes: seq<byte>) | TooLarge | NoRoute | PanickedSending

  // ---------------------------------------------------------------- sending

  function BlankHeader(src: Addr, dst: Addr, protocol: byte, totalLen: u16): (s: seq<byte>)
    ensures |s| == IP
  {
    [0x45, 0, Hi(totalLen), Lo(totalLen), 0, 0, 0x40, 0, 64, protocol, 0, 0] + src.Bytes() + dst.Bytes()
  }

  /** The header with its checksum in place. */
  function Header(src: Addr, dst: Addr, protocol: byte, totalLen: u16): (s: seq<byte>)
    ensures |s| == IP
  {
    var blank := BlankHeader(src, dst, protocol, totalLen);
    Store(blank, 10, Value(blank, 0))
  }

  function EthHeader(dst: Mac, src: Mac): (s: seq<byte>)
    ensures |s| == ETH
  {
    dst + src + [0x08, 0x00]
  }

  function IpFrame(h: Host, dstMac: Mac, dst: Addr, protocol: byte, payload: seq<byte>): seq<byte>
    requires IP + |payload| <= MTU
  {
    EthHeader(dstMac, h.mac) + Header(h.ip, dst, protocol, IP + |payload|) + payload
  }

  lemma HeaderPlaced(b0: seq<byte>, b1: seq<byte>, b2: seq<byte>, b3: seq<byte>, src: Addr, dst: Addr,
                     protocol: byte, totalLen: u16)
    requires |b0| == TX_PKT
    requires b1 == b0[..14] + [0x45, 0, Hi(totalLen), Lo(totalLen), 0, 0, 0x40, 0, 64, protocol, 0, 0] + b0[26..]
    requires b2 == b1[..26] + src.Bytes() + b1[30..]
    requires b3 == b2[..30] + dst.Bytes() + b2[34..]
    ensures |b3| == TX_PKT && b3[34..] == b0[34..] && b3[14..34] == BlankHeader(src, dst, protocol, totalLen)
  {
  }

  /** The IP header without its checksum, in front of the payload. */
  method PutHeader(h: Host, txPkt: array<byte>, dst: Addr, protocol: byte, totalLen: u16)
    requires txPkt.Length == TX_PKT
    modifies txPkt
    ensures txPkt[ETH..TRANSPORT] == BlankHeader(h.ip, dst, protocol, totalLen)
    ensures txPkt[TRANSPORT..] == old(txPkt[TRANSPORT..])
  {
    hide Hi, Lo, BlankHeader;
    ghost var b0 := txPkt[..];
    CopyIn(txPkt, ETH, [0x45, 0, Hi(totalLen), Lo(totalLen), 0, 0, 0x40, 0, 64, protocol, 0, 0]);
    ghost var b1 := txPkt[..];
    CopyIn(txPkt, ETH + 12, h.ip.Bytes());
    ghost var b2 := txPkt[..];
    CopyIn(txPkt, ETH + 16, dst.Bytes());
    HeaderPlaced(b0, b1, b2, txPkt[..], h.ip, dst, protocol, totalLen);
    assert txPkt[ETH..TRANSPORT] == txPkt[..][ETH..TRANSPORT] && txPkt[TRANSPORT..] == txPkt[..][TRANSPORT..];
  }

  /** The checksum of the header in place. */
  method PutChecksum(txPkt: array<byte>)
    requires txPkt.Length == TX_PKT
    modifies txPkt
    ensures txPkt[ETH..TRANSPORT] ==
            Store(old(txPkt[ETH..TRANSPORT]), 10, Value(old(txPkt[ETH..TRANSPORT]), 0))
    ensures txPkt[TRANSPORT..] == old(txPkt[TRANSPORT..])
  {
    hide Value, Hi, Lo;
    var cs := Compute(txPkt[ETH..TRANSPORT], 0);
    txPkt[ETH + 10], txPkt[ETH + 11] := Hi(cs), Lo(cs);
  }

  method PutEthernet(h: Host, txPkt: array<byte>, dstMac: Mac)
    requires txPkt.Length == TX_PKT
    modifies txPkt
    ensures txPkt[..ETH] == EthHeader(dstMac, h.mac) && txPkt[ETH..] == old(txPkt[ETH..])
  {
    CopyIn(txPkt, 0, dstMac + h.mac + [0x08, 0x00]);
  }

  method SendIpv4(h: Host, txPkt: array<byte>, dstMac: Mac, dst: Addr, protocol: byte, payloadLen: nat)
    returns (r: Sent)
    requires txPkt.Length == TX_PKT && dst.V4?
    modifies txPkt
    ensures IP + payloadLen > MTU ==> r == TooLarge
    ensures IP + payloadLen <= MTU ==>
              r == Frame(IpFrame(h, dstMac, dst, protocol, old(txPkt[TRANSPORT..TRANSPORT + payloadLen])))
  {
    hide Store, Value, BlankHeader, EthHeader;
    var totalLen := IP + payloadLen;
    if totalLen > MTU {
      return TooLarge;
    }
    ghost var behind, payload := txPkt[TRANSPORT..], txPkt[TRANSPORT..TRANSPORT + payloadLen];
    assert behind[..payloadLen] == payload;
    PutHeader(h, txPkt, dst, protocol, totalLen);
    PutChecksum(txPkt);
    HeaderThenPayload(txPkt[..], Header(h.ip, dst, protocol, totalLen), behind);
    PutEthernet(h, txPkt, dstMac);
    FrameCut(txPkt[..], EthHeader(dstMac, h.mac), Header(h.ip, dst, protocol, totalLen), behind, payloadLen);
    r := Frame(txPkt[..ETH + totalLen]);
  }

  lemma HeaderThenPayload(b: seq<byte>, header: seq<byte>, behind: seq<byte>)
    requires |b| == TX_PKT && b[ETH..TRANSPORT] == header && b[TRANSPORT..] == behind
    ensures b[ETH..] == header + behind
  {
  }

  lemma FrameCut(b: seq<byte>, eth: seq<byte>, header: seq<byte>, behind: seq<byte>, n: nat)
    requires |b| == TX_PKT && |eth| == ETH && |header| == IP && n <= |behind|
    requires b[..ETH] == eth && b[ETH..] == header + behind
    ensures b[..ETH + IP + n] == eth + header + behind[..n]
  {
    assert b == eth + (header + behind);
  }

  // ---------------------------------------------------------------- receiving

  predicate IsMulticast(a: Addr) {
    a.V4? && 224 <= a.a < 240
  }

  /** Addressed to us or to many; everything while no address is set. */
  predicate IsForUs(own: Addr, dst: Addr) {
    !own.IsValid() || dst == own || IsMulticast(dst) || dst == V4(255, 255, 255, 255)
  }

  datatype Packet = Ignored | Panicked | Payload(protocol: byte, src: Addr, data: seq<byte>)

  function AddrAt(pkt: seq<byte>, i: nat): Addr
    requires i + 4 <= |pkt|
  {
    V4(pkt[i], pkt[i + 1], pkt[i + 2], pkt[i + 3])
  }

  function ReceiveIpv4(own: Addr, pkt: seq<byte>): (r: Packet)
    ensures r.Payload? ==> |r.data| <= 0xFFFF
  {
    if |pkt| < IP || pkt[0] / 16 != 4 then Ignored else
    var ihl: nat := pkt[0] % 16 * 4;
    if ihl < IP || ihl > |pkt| then Ignored else
    var totalLen: nat := Min(Be16(pkt[2], pkt[3]), |pkt|);
    if Value(pkt[..ihl], 0) != 0 || !IsForUs(own, AddrAt(pkt, 16)) then Ignored
    else if totalLen < ihl then Panicked
    else Payload(pkt[9], AddrAt(pkt, 12), pkt[ihl..totalLen])
  }

  method HandleIpv4(own: Addr, pkt: seq<byte>) returns (r: Packet)
    ensures r == ReceiveIpv4(own, pkt)
  {
    hide Value;
    if |pkt| < IP {
      return Ignored;
    }
    var version := pkt[0] / 16;
    if version != 4 {
      return Ignored;
    }
    var ihl: nat := pkt[0] % 16 * 4;
    if ihl < IP || ihl > |pkt| {
      return Ignored;
    }
    var totalLen: nat := Be16(pkt[2], pkt[3]);
    if totalLen > |pkt| {
      totalLen := |pkt|;
    }
    var cs := Compute(pkt[..ihl], 0);
    if cs != 0 {
      return Ignored;
    }
    var protocol, srcIp, dstIp := pkt[9], AddrAt(pkt, 12), AddrAt(pkt, 16);
    if own.IsValid() && dstIp != own && !IsMulticast(dstIp) && dstIp != V4(255, 255, 255, 255) {
      return Ignored;
    }
    if totalLen < ihl {
      return Panicked;
    }
    r := Payload(protocol, srcIp, pkt[ihl..totalLen]);
  }

  // ---------------------------------------------------------------- the two together

  /** The address a receiver reads where an unset one was written. */
  function AsRead(a: Addr): (r: Addr)
    ensures a.IsValid() ==> r == a
  {
    var b := a.Bytes();
    V4(b[0], b[1], b[2], b[3])
  }

  lemma HeaderChecks(src: Addr, dst: Addr, protocol: byte, totalLen: u16)
    ensures Value(Header(src, dst, protocol, totalLen), 0) == 0
  {
    hide Value, Store;
    StoredChecksumVerifies(BlankHeader(src, dst, protocol, totalLen), 0, 10);
  }

  lemma HeaderFields(src: Addr, dst: Addr, protocol: byte, totalLen: u16)
    ensures var s := Header(src, dst, protocol, totalLen);
            && s[0] == 0x45 && Be16(s[2], s[3]) == totalLen && s[9] == protocol
            && AddrAt(s, 12) == AsRead(src) && AddrAt(s, 16) == AsRead(dst)
  {
    hide Value;
  }

  lemma HeaderInFront(s: seq<byte>, rest: seq<byte>)
    requires |s| == IP
    ensures (s + rest)[..IP] == s && (s + rest)[IP..] == rest
    ensures AddrAt(s + rest, 12) == AddrAt(s, 12) && AddrAt(s + rest, 16) == AddrAt(s, 16)
  {
  }

  /** A packet that was sent is delivered to exactly the hosts it is for, whole, with link padding cut off. */
  lemma Ipv4RoundTrip(own: Addr, src: Addr, dst: Addr, protocol: byte, payload: seq<byte>, padding: seq<byte>)
    requires IP + |payload| <= MTU
    ensures ReceiveIpv4(own, Header(src, dst, protocol, IP + |payload|) + payload + padding) ==
            if IsForUs(own, AsRead(dst)) then Payload(protocol, AsRead(src), payload) else Ignored
  {
    var s := Header(src, dst, protocol, IP + |payload|);
    HeaderChecks(src, dst, protocol, IP + |payload|);
    HeaderFields(src, dst, protocol, IP + |payload|);
    hide Header, Value;
    HeaderInFront(s, payload + padding);
    var pkt := s + (payload + padding);
    assert s + payload + padding == pkt;
    assert pkt[IP..IP + |payload|] == pkt[IP..][..|payload|] == payload;
  }

  /** A header with options: those of BlankHeader's fields, the length it announces for itself, and its checksum. */
  function LongHeader(src: Addr, dst: Addr, protocol: byte, totalLen: u16, options: seq<byte>): (s: seq<byte>)
    requires |options| % 4 == 0 && |options| <= 40
    ensures |s| == IP + |options|
  {
    var blank := BlankHeader(src, dst, protocol, totalLen)[0 := 0x45 + |options| / 4] + options;
    Store(blank, 10, Value(blank, 0))
  }

  lemma NoOptions(src: Addr, dst: Addr, protocol: byte, totalLen: u16)
    ensures LongHeader(src, dst, protocol, totalLen, []) == Header(src, dst, protocol, totalLen)
  {
    hide Value;
    var blank := BlankHeader(src, dst, protocol, totalLen);
    assert blank[0 := 0x45] + [] == blank;
  }

  lemma LongHeaderChecks(src: Addr, dst: Addr, protocol: byte, totalLen: u16, options: seq<byte>)
    requires |options| % 4 == 0 && |options| <= 40
    ensures Value(LongHeader(src, dst, protocol, totalLen, options), 0) == 0
  {
    hide Value, Store;
    StoredChecksumVerifies(BlankHeader(src, dst, protocol, totalLen)[0 := 0x45 + |options| / 4] + options, 0, 10);
  }

  lemma LongHeaderFields(src: Addr, dst: Addr, protocol: byte, totalLen: u16, options: seq<byte>)
    requires |options| % 4 == 0 && |options| <= 40
    ensures var s := LongHeader(src, dst, protocol, totalLen, options);
            && s[0] == 0x45 + |options| / 4 && Be16(s[2], s[3]) == totalLen && s[9] == protocol
            && AddrAt(s, 12) == AsRead(src) && AddrAt(s, 16) == AsRead(dst)
  {
    hide Value;
  }

  /** A packet whose header, with or without options, announces a total length below the header's own panics every
      host it is for; with a larger total length it panics none. */
  lemma ShortTotalPanics(own: Addr, src: Addr, dst: Addr, protocol: byte, totalLen: u16, options: seq<byte>,
                         rest: seq<byte>)
    requires |options| % 4 == 0 && |options| <= 40
    ensures ReceiveIpv4(own, LongHeader(src, dst, protocol, totalLen, options) + rest) == Panicked <==>
            IsForUs(own, AsRead(dst)) && totalLen < IP + |options|
  {
    var s := LongHeader(src, dst, protocol, totalLen, options);
    LongHeaderChecks(src, dst, protocol, totalLen, options);
    LongHeaderFields(src, dst, protocol, totalLen, options);
    LengthNibble(|options|);
    hide LongHeader, Value;
    PanicsBelow(own, s, rest);
  }

  lemma LengthNibble(n: nat)
    requires n % 4 == 0 && n <= 40
    ensures (0x45 + n / 4) / 16 == 4 && (0x45 + n / 4) % 16 * 4 == IP + n
  {
  }

  /** Any header that checks and announces its own length. */
  lemma PanicsBelow(own: Addr, s: seq<byte>, rest: seq<byte>)
    requires |s| >= IP && s[0] / 16 == 4 && s[0] % 16 * 4 == |s| && Value(s, 0) == 0
    ensures ReceiveIpv4(own, s + rest) == Panicked <==> IsForUs(own, AddrAt(s, 16)) && Be16(s[2], s[3]) < |s|
  {
    hide Value, IsForUs, Be16;
    LongInFront(s, rest);
  }

  lemma LongInFront(s: seq<byte>, rest: seq<byte>)
    requires |s| >= IP
    ensures (s + rest)[..|s|] == s && AddrAt(s + rest, 12) == AddrAt(s, 12) && AddrAt(s + rest, 16) == AddrAt(s, 16)
  {
  }

  /** Damage to one header word behind the first is always noticed, short of exchanging 0x0000 and 0xFFFF. */
  lemma DamagedHeaderIgnored(own: Addr, pkt: seq<byte>, k: nat, w: u16)
    requires ReceiveIpv4(own, pkt).Payload? && k % 2 == 0 && 2 <= k < IP
    requires var was := Be16(pkt[k], pkt[k + 1]);
             w != was && !(w == 0xFFFF && was == 0) && !(w == 0 && was == 0xFFFF)
    ensures ReceiveIpv4(own, Store(pkt, k, w)) == Ignored
  {
    hide Value;
    var ihl: nat := pkt[0] % 16 * 4;
    SingleWordCorruption(pkt[..ihl], 0, k, w);
    assert Store(pkt, k, w)[..ihl] == Store(pkt[..ihl], k, w);
  }
}
