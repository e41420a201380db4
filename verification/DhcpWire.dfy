/** DHCP messages on the wire: the option list both sides scan (stack/dhcp.go, stack/dhcpserver.go) and the
    buffers they build. */
module DhcpWire {
  import opened Words
  import opened Rings
  import opened DhcpLease

  const FIXED := 240
  const BUFFER := 300
  const BOOT_REQUEST := 1
  const BOOT_REPLY := 2
  const COOKIE: seq<byte> := [0x63, 0x82, 0x53, 0x63]

  const DISCOVER := 1
  const OFFER := 2
  const REQUEST := 3
  const ACK := 5
  const NAK := 6

  const OPT_SUBNET := 1
  const OPT_ROUTER := 3
  const OPT_DNS := 6
  const OPT_REQUESTED := 50
  const OPT_LEASE := 51
  const OPT_TYPE := 53
  const OPT_SERVER := 54
  const OPT_PARAMS := 55
  const OPT_END := 255

  // ---------------------------------------------------------------- the option list

  datatype Tlv = Tlv(code: byte, val: seq<byte>)

  /** The options of a message: zeros are padding, and the list stops at an end mark, at the end of the data,
      or at an option that does not fit. */
  function Options(s: seq<byte>): seq<Tlv>
    decreases |s|
  {
    if s == [] || s[0] == OPT_END then []
    else if s[0] == 0 then Options(s[1..])
    else if |s| < 2 || 2 + s[1] as int > |s| then []
    else [Tlv(s[0], s[2..2 + s[1] as int])] + Options(s[2 + s[1] as int..])
  }

  function EncodeOne(o: Tlv): seq<byte>
    requires |o.val| <= 0xFF
  {
    [o.code, |o.val|] + o.val
  }

  ghost predicate Encodable(os: seq<Tlv>) {
    forall o | o in os :: o.code != 0 && o.code != OPT_END && |o.val| <= 0xFF
  }

  function EncodeOptions(os: seq<Tlv>): seq<byte>
    requires Encodable(os)
  {
    if os == [] then [] else EncodeOne(os[0]) + EncodeOptions(os[1..])
  }

  /** Scanning recovers exactly the encoded options, whatever follows the end mark. */
  lemma {:induction false} OptionsOfEncoding(os: seq<Tlv>, rest: seq<byte>)
    requires Encodable(os)
    ensures Options(EncodeOptions(os) + ([OPT_END] + rest)) == os
    decreases |os|
  {
    var tail := [OPT_END] + rest;
    if os == [] {
      assert [] + tail == tail;
    } else {
      OptionsOfEncoding(os[1..], rest);
      var o, more := os[0], EncodeOptions(os[1..]) + tail;
      OptionsStep(o, more);
      assert (EncodeOne(o) + EncodeOptions(os[1..])) + tail == EncodeOne(o) + more;
      assert [os[0]] + os[1..] == os;
    }
  }

  lemma OptionsStep(o: Tlv, more: seq<byte>)
    requires o.code != 0 && o.code != OPT_END && |o.val| <= 0xFF
    ensures Options(EncodeOne(o) + more) == [o] + Options(more)
  {
    var s := EncodeOne(o) + more;
    assert s[2..2 + |o.val|] == o.val;
    assert s[2 + |o.val|..] == more;
  }

  /** The value of the last option with this code that is long enough, or nothing. */
  function LastVal(os: seq<Tlv>, code: byte, min: nat): (v: seq<byte>)
    requires min > 0
    ensures v == [] || |v| >= min
  {
    if os == [] then []
    else
      var o := os[|os| - 1];
      if o.code == code && |o.val| >= min then o.val else LastVal(os[..|os| - 1], code, min)
  }

  function TypeIn(os: seq<Tlv>): byte {
    var v := LastVal(os, OPT_TYPE, 1);
    if v == [] then 0 else v[0]
  }

  function AddrIn(os: seq<Tlv>, code: byte): Addr {
    var v := LastVal(os, code, 4);
    if v == [] then NoAddr else V4(v[0], v[1], v[2], v[3])
  }

  function LeaseIn(os: seq<Tlv>): u32 {
    var v := LastVal(os, OPT_LEASE, 4);
    if v == [] then 0 else Be32(v[0], v[1], v[2], v[3])
  }

  /** What the server reads from a message. */
  datatype Request = Request(msgType: byte, requested: Addr)

  /** What the client reads from a message. */
  datatype Reply = Reply(msgType: byte, subnet: Addr, router: Addr, dns: Addr, server: Addr, lease: u32)

  function RequestIn(os: seq<Tlv>): Request {
    Request(TypeIn(os), AddrIn(os, OPT_REQUESTED))
  }

  function ReplyIn(os: seq<Tlv>): Reply {
    Reply(TypeIn(os), AddrIn(os, OPT_SUBNET), AddrIn(os, OPT_ROUTER), AddrIn(os, OPT_DNS), AddrIn(os, OPT_SERVER),
          LeaseIn(os))
  }

  function SetRequest(r: Request, o: Tlv): Request {
    if o.code == OPT_TYPE && |o.val| >= 1 then r.(msgType := o.val[0])
    else if o.code == OPT_REQUESTED && |o.val| >= 4 then r.(requested := V4(o.val[0], o.val[1], o.val[2], o.val[3]))
    else r
  }

  function SetReply(r: Reply, o: Tlv): Reply {
    if o.code == OPT_TYPE && |o.val| >= 1 then r.(msgType := o.val[0])
    else if |o.val| < 4 then r
    else
      var a := V4(o.val[0], o.val[1], o.val[2], o.val[3]);
      if o.code == OPT_SUBNET then r.(subnet := a)
      else if o.code == OPT_ROUTER then r.(router := a)
      else if o.code == OPT_DNS then r.(dns := a)
      else if o.code == OPT_SERVER then r.(server := a)
      else if o.code == OPT_LEASE then r.(lease := Be32(o.val[0], o.val[1], o.val[2], o.val[3]))
      else r
  }

  lemma Snoc(os: seq<Tlv>, o: Tlv, code: byte, min: nat)
    requires min > 0
    ensures LastVal(os + [o], code, min) == if o.code == code && |o.val| >= min then o.val else LastVal(os, code, min)
  {
    assert (os + [o])[..|os|] == os;
  }

  lemma RequestSnoc(os: seq<Tlv>, o: Tlv)
    ensures RequestIn(os + [o]) == SetRequest(RequestIn(os), o)
  {
    hide LastVal;
    Snoc(os, o, OPT_TYPE, 1);
    Snoc(os, o, OPT_REQUESTED, 4);
  }

  lemma ReplySnoc(os: seq<Tlv>, o: Tlv)
    ensures ReplyIn(os + [o]) == SetReply(ReplyIn(os), o)
  {
    hide LastVal;
    Snoc(os, o, OPT_TYPE, 1);
    Snoc(os, o, OPT_SUBNET, 4);
    Snoc(os, o, OPT_ROUTER, 4);
    Snoc(os, o, OPT_DNS, 4);
    Snoc(os, o, OPT_SERVER, 4);
    Snoc(os, o, OPT_LEASE, 4);
  }

  /** One round of either scanning loop. */
  lemma ScanStep(opts: seq<byte>, i: nat, done: seq<Tlv>)
    requires i < |opts|
    ensures var n := if i + 1 < |opts| then opts[i + 1] as int else 0;
            done + Options(opts[i..]) ==
            if opts[i] == OPT_END then done
            else if opts[i] == 0 then done + Options(opts[i + 1..])
            else if i + 1 >= |opts| || i + 2 + n > |opts| then done
            else (done + [Tlv(opts[i], opts[i + 2..i + 2 + n])]) + Options(opts[i + 2 + n..])
  {
    var s := opts[i..];
    assert s[1..] == opts[i + 1..];
    if i + 1 < |opts| && i + 2 + opts[i + 1] as int <= |opts| {
      var n: nat := opts[i + 1];
      assert s[2 + n..] == opts[i + 2 + n..];
      assert s[2..2 + n] == opts[i + 2..i + 2 + n];
    }
  }

  lemma ScanEnd(opts: seq<byte>, done: seq<Tlv>)
    ensures done + Options(opts[|opts|..]) == done
  {
  }

  /** The server's loop: the last option of each kind counts. */
  method ScanRequest(opts: seq<byte>) returns (r: Request)
    ensures r == RequestIn(Options(opts))
  {
    hide Options, RequestIn, SetRequest;
    r := Request(0, NoAddr);
    ghost var done: seq<Tlv> := [];
    assert opts[0..] == opts && [] + Options(opts) == Options(opts);
    NothingRead();
    var i := 0;
    while i < |opts|
      invariant i <= |opts|
      invariant done + Options(opts[i..]) == Options(opts)
      invariant r == RequestIn(done)
      decreases |opts| - i
    {
      ScanStep(opts, i, done);
      var opt := opts[i];
      if opt == OPT_END {
        return;
      }
      if opt == 0 {
        i := i + 1;
        continue;
      }
      if i + 1 >= |opts| {
        return;
      }
      var optLen: nat := opts[i + 1];
      if i + 2 + optLen > |opts| {
        return;
      }
      var o := Tlv(opt, opts[i + 2..i + 2 + optLen]);
      RequestSnoc(done, o);
      r := SetRequest(r, o);
      done := done + [o];
      i := i + 2 + optLen;
    }
    ScanEnd(opts, done);
  }

  /** The client's loop: the last option of each kind counts. */
  method ScanReply(opts: seq<byte>) returns (r: Reply)
    ensures r == ReplyIn(Options(opts))
  {
    hide Options, ReplyIn, SetReply;
    r := Reply(0, NoAddr, NoAddr, NoAddr, NoAddr, 0);
    ghost var done: seq<Tlv> := [];
    assert opts[0..] == opts && [] + Options(opts) == Options(opts);
    NothingRead();
    var i := 0;
    while i < |opts|
      invariant i <= |opts|
      invariant done + Options(opts[i..]) == Options(opts)
      invariant r == ReplyIn(done)
      decreases |opts| - i
    {
      ScanStep(opts, i, done);
      var opt := opts[i];
      if opt == OPT_END {
        return;
      }
      if opt == 0 {
        i := i + 1;
        continue;
      }
      if i + 1 >= |opts| {
        return;
      }
      var optLen: nat := opts[i + 1];
      if i + 2 + optLen > |opts| {
        return;
      }
      var o := Tlv(opt, opts[i + 2..i + 2 + optLen]);
      ReplySnoc(done, o);
      r := SetReply(r, o);
      done := done + [o];
      i := i + 2 + optLen;
    }
    ScanEnd(opts, done);
  }

  lemma NothingRead()
    ensures RequestIn([]) == Request(0, NoAddr)
    ensures ReplyIn([]) == Reply(0, NoAddr, NoAddr, NoAddr, NoAddr, 0)
  {
  }

  // ---------------------------------------------------------------- messages

  type Four = s: seq<byte> | |s| == 4 witness [0, 0, 0, 0]

  function XidOf(b: Four): u32 {
    Be32(b[0], b[1], b[2], b[3])
  }

  /** The fixed part: operation, transaction, broadcast flag, the two addresses, hardware address, cookie. */
  function Fixed(op: byte, xid: Four, flag: byte, yiaddr: Four, siaddr: Four, mac: Mac): (s: seq<byte>)
    ensures |s| == FIXED
  {
    [op, 1, 6, 0] + xid + [0, 0, flag, 0] + Zeros(4) + yiaddr + siaddr + Zeros(4) + mac + Zeros(202) + COOKIE
  }

  function AddrOption(code: byte, ip: Addr): seq<Tlv> {
    if ip.IsValid() then [Tlv(code, ip.Bytes())] else []
  }

  function RequestOptions(msgType: byte, requested: Addr, server: Addr): (os: seq<Tlv>)
    ensures Encodable(os)
  {
    [Tlv(OPT_TYPE, [msgType])] + AddrOption(OPT_REQUESTED, requested) + AddrOption(OPT_SERVER, server)
    + [Tlv(OPT_PARAMS, [OPT_SUBNET, OPT_ROUTER, OPT_DNS])]
  }

  /** What the client's buildPacket writes. */
  function RequestBytes(xid: u32, mac: Mac, msgType: byte, requested: Addr, server: Addr): seq<byte> {
    Fixed(BOOT_REQUEST, Bytes32(xid), 0x80, Zeros(4), Zeros(4), mac)
    + EncodeOptions(RequestOptions(msgType, requested, server)) + [OPT_END]
  }

  function ReplyOptions(msgType: byte, gateway: Addr, subnet: Addr): (os: seq<Tlv>)
    ensures Encodable(os)
  {
    [Tlv(OPT_TYPE, [msgType]), Tlv(OPT_SUBNET, subnet.Bytes()), Tlv(OPT_ROUTER, gateway.Bytes()),
     Tlv(OPT_DNS, gateway.Bytes()), Tlv(OPT_LEASE, [0, 0, 0x0E, 0x10]), Tlv(OPT_SERVER, gateway.Bytes())]
  }

  /** What the server's sendReply writes. */
  function ReplyBytes(xid: Four, mac: Mac, msgType: byte, ip: Addr, gateway: Addr, subnet: Addr): seq<byte> {
    Fixed(BOOT_REPLY, xid, 0, ip.Bytes(), gateway.Bytes(), mac)
    + EncodeOptions(ReplyOptions(msgType, gateway, subnet)) + [OPT_END]
  }

  predicate HasCookie(data: seq<byte>)
    requires |data| >= FIXED
  {
    data[236..240] == COOKIE
  }

  /** The sources compare it as one word. */
  lemma CookieWord(data: seq<byte>)
    requires |data| >= FIXED
    ensures HasCookie(data) <==> Be32(data[236], data[237], data[238], data[239]) == 0x63825363
  {
    var s := data[236..240];
    assert s == [data[236], data[237], data[238], data[239]];
    Quarters(s[0], s[1], s[2], s[3]);
  }

  lemma Quarters(a: byte, b: byte, c: byte, d: byte)
    ensures Be32(a, b, c, d) == 0x63825363 <==> a == 0x63 && b == 0x82 && c == 0x53 && d == 0x63
  {
    Halves(Be16(a, b), Be16(c, d));
    if Be32(a, b, c, d) == 0x63825363 {
      assert Be16(a, b) == 0x6382 && Be16(c, d) == 0x5363;
    }
  }

  /** A message the server heeds, as it sees it. */
  datatype Heard = Heard(xid: Four, mac: Mac, req: Request)

  function ServerView(data: seq<byte>): Option<Heard> {
    if |data| < FIXED || data[0] != BOOT_REQUEST || !HasCookie(data) then None
    else Some(Heard(data[4..8], data[28..34], RequestIn(Options(data[FIXED..]))))
  }

  /** A message the client heeds, as it sees it; it looks at neither its own hardware address nor the server's. */
  datatype Got = Got(yiaddr: Addr, reply: Reply)

  function ClientView(xid: u32, data: seq<byte>): Option<Got> {
    if |data| < FIXED || data[0] != BOOT_REPLY || Be32(data[4], data[5], data[6], data[7]) != xid || !HasCookie(data)
    then None
    else Some(Got(V4(data[16], data[17], data[18], data[19]), ReplyIn(Options(data[FIXED..]))))
  }

  lemma FixedFields(op: byte, xid: Four, flag: byte, yiaddr: Four, siaddr: Four, mac: Mac, opts: seq<byte>)
    ensures var data := Fixed(op, xid, flag, yiaddr, siaddr, mac) + opts;
            && |data| >= FIXED && data[0] == op && data[4..8] == xid && data[16..20] == yiaddr
            && data[28..34] == mac && HasCookie(data) && data[FIXED..] == opts
  {
  }

  lemma RequestOptionsRead(msgType: byte, requested: Addr, server: Addr)
    ensures RequestIn(RequestOptions(msgType, requested, server)) == Request(msgType, requested)
  {
    hide RequestIn;
    var o1, o2, o3 := Tlv(OPT_TYPE, [msgType]), AddrOption(OPT_REQUESTED, requested), AddrOption(OPT_SERVER, server);
    NothingRead();
    RequestSnoc([], o1);
    assert [] + [o1] == [o1];
    assert RequestIn([o1] + o2) == Request(msgType, requested) by {
      if requested.IsValid() {
        RequestSnoc([o1], o2[0]);
      } else {
        assert [o1] + [] == [o1];
      }
    }
    assert RequestIn([o1] + o2 + o3) == Request(msgType, requested) by {
      if server.IsValid() {
        RequestSnoc([o1] + o2, o3[0]);
      } else {
        assert [o1] + o2 + [] == [o1] + o2;
      }
    }
    RequestSnoc([o1] + o2 + o3, Tlv(OPT_PARAMS, [OPT_SUBNET, OPT_ROUTER, OPT_DNS]));
  }

  lemma ReplyOptionsRead(msgType: byte, gateway: Addr, subnet: Addr)
    requires gateway.V4? && subnet.V4?
    ensures ReplyIn(ReplyOptions(msgType, gateway, subnet)) == Reply(msgType, subnet, gateway, gateway, gateway, 3600)
  {
    hide ReplyIn;
    var os := ReplyOptions(msgType, gateway, subnet);
    NothingRead();
    assert os[..0] == [] && os[..6] == os;
    ReplyPrefix(os, 0);
    ReplyPrefix(os, 1);
    ReplyPrefix(os, 2);
    ReplyPrefix(os, 3);
    ReplyPrefix(os, 4);
    ReplyPrefix(os, 5);
  }

  lemma ReplyPrefix(os: seq<Tlv>, k: nat)
    requires k < |os|
    ensures ReplyIn(os[..k + 1]) == SetReply(ReplyIn(os[..k]), os[k])
  {
    assert os[..k + 1] == os[..k] + [os[k]];
    ReplySnoc(os[..k], os[k]);
  }

  /** The server recovers exactly what the client put into its message. */
  lemma RequestRoundTrip(xid: u32, mac: Mac, msgType: byte, requested: Addr, server: Addr)
    ensures ServerView(RequestBytes(xid, mac, msgType, requested, server)) ==
            Some(Heard(Bytes32(xid), mac, Request(msgType, requested)))
  {
    hide Options, RequestIn, EncodeOptions, Fixed, RequestOptions;
    var os := RequestOptions(msgType, requested, server);
    var opts := EncodeOptions(os) + [OPT_END];
    FixedFields(BOOT_REQUEST, Bytes32(xid), 0x80, Zeros(4), Zeros(4), mac, opts);
    assert RequestBytes(xid, mac, msgType, requested, server)
        == Fixed(BOOT_REQUEST, Bytes32(xid), 0x80, Zeros(4), Zeros(4), mac) + opts;
    assert opts == EncodeOptions(os) + ([OPT_END] + []);
    OptionsOfEncoding(os, []);
    RequestOptionsRead(msgType, requested, server);
  }

  /** The client recovers exactly what the server put into its message, if the transaction is its own. */
  lemma ReplyRoundTrip(xid: u32, to: Four, mac: Mac, msgType: byte, ip: Addr, gateway: Addr, subnet: Addr)
    requires ip.V4? && gateway.V4? && subnet.V4?
    ensures ClientView(xid, ReplyBytes(to, mac, msgType, ip, gateway, subnet)) ==
            if XidOf(to) == xid then Some(Got(ip, Reply(msgType, subnet, gateway, gateway, gateway, 3600))) else None
  {
    hide Options, ReplyIn, EncodeOptions, Fixed, ReplyOptions;
    var os := ReplyOptions(msgType, gateway, subnet);
    var opts := EncodeOptions(os) + [OPT_END];
    FixedFields(BOOT_REPLY, to, 0, ip.Bytes(), gateway.Bytes(), mac, opts);
    var data := ReplyBytes(to, mac, msgType, ip, gateway, subnet);
    assert data == Fixed(BOOT_REPLY, to, 0, ip.Bytes(), gateway.Bytes(), mac) + opts;
    assert opts == EncodeOptions(os) + ([OPT_END] + []);
    OptionsOfEncoding(os, []);
    ReplyOptionsRead(msgType, gateway, subnet);
    assert data[4] == data[4..8][0] && data[5] == data[4..8][1] && data[6] == data[4..8][2] && data[7] == data[4..8][3];
    assert data[16] == data[16..20][0] && data[17] == data[16..20][1]
        && data[18] == data[16..20][2] && data[19] == data[16..20][3];
  }

  // ---------------------------------------------------------------- building in place

  /** b starts with p and is zero behind it. */
  ghost predicate Filled(b: seq<byte>, p: seq<byte>) {
    |p| <= |b| && b == p + Zeros(|b| - |p|)
  }

  lemma FilledMore(b: seq<byte>, p: seq<byte>, at: nat, x: seq<byte>)
    requires Filled(b, p) && |p| <= at && at + |x| <= |b|
    ensures Filled(b[..at] + x + b[at + |x|..], p + Zeros(at - |p|) + x)
  {
  }

  method Fill(buf: array<byte>, ghost p: seq<byte>, at: nat, x: seq<byte>)
    requires Filled(buf[..], p) && |p| <= at && at + |x| <= buf.Length
    modifies buf
    ensures Filled(buf[..], p + Zeros(at - |p|) + x)
  {
    FilledMore(buf[..], p, at, x);
    CopyIn(buf, at, x);
  }

  method PutOption(buf: array<byte>, i: nat, o: Tlv, ghost p: seq<byte>, ghost os: seq<Tlv>) returns (next: nat)
    requires |o.val| <= 0xFF && o.code != 0 && o.code != OPT_END && Encodable(os)
    requires i == |p + EncodeOptions(os)| && i + 2 + |o.val| <= buf.Length
    requires Filled(buf[..], p + EncodeOptions(os))
    modifies buf
    ensures Encodable(os + [o]) && Filled(buf[..], p + EncodeOptions(os + [o]))
    ensures next == |p + EncodeOptions(os + [o])| == i + 2 + |o.val|
  {
    hide EncodeOptions, Filled;
    EncodeSnoc(os, o);
    ghost var q := p + EncodeOptions(os);
    Fill(buf, q, i, [o.code, |o.val|]);
    assert q + Zeros(0) + [o.code, |o.val| as byte] == q + [o.code, |o.val|];
    Fill(buf, q + [o.code, |o.val|], i + 2, o.val);
    assert q + [o.code, |o.val| as byte] + Zeros(0) + o.val == p + (EncodeOptions(os) + EncodeOne(o));
    next := i + 2 + |o.val|;
  }

  lemma {:induction false} EncodeSnoc(os: seq<Tlv>, o: Tlv)
    requires Encodable(os) && Encodable([o])
    ensures Encodable(os + [o]) && EncodeOptions(os + [o]) == EncodeOptions(os) + EncodeOne(o)
  {
    if os == [] {
      assert [] + [o] == [o] && [o][1..] == [];
    } else {
      EncodeSnoc(os[1..], o);
      var all := os + [o];
      assert all[1..] == os[1..] + [o] && all[0] == os[0];
      assert Encodable(all);
      hide Encodable;
      var x, y, z := EncodeOne(os[0]), EncodeOptions(os[1..]), EncodeOne(o);
      assert x + (y + z) == (x + y) + z;
    }
  }

  /** The next of the options to be written. */
  method PutNext(buf: array<byte>, i: nat, o: Tlv, ghost p: seq<byte>, ghost os: seq<Tlv>, ghost k: nat)
    returns (next: nat)
    requires k < |os| && o == os[k] && Encodable(os) && Encodable(os[..k])
    requires i == |p + EncodeOptions(os[..k])| && i + 2 + |o.val| <= buf.Length
    requires Filled(buf[..], p + EncodeOptions(os[..k]))
    modifies buf
    ensures Encodable(os[..k + 1]) && Filled(buf[..], p + EncodeOptions(os[..k + 1]))
    ensures next == |p + EncodeOptions(os[..k + 1])| == i + 2 + |o.val|
  {
    hide EncodeOptions, Filled;
    assert os[..k] + [os[k]] == os[..k + 1];
    next := PutOption(buf, i, o, p, os[..k]);
  }

  method BuildRequest(xid: u32, mac: Mac, msgType: byte, requested: Addr, server: Addr, buf: array<byte>)
    returns (n: nat)
    requires buf.Length == BUFFER
    modifies buf
    ensures n <= BUFFER && buf[..n] == RequestBytes(xid, mac, msgType, requested, server)
  {
    hide EncodeOptions, Filled;
    PutRequestHeader(xid, mac, buf);
    ghost var p := Fixed(BOOT_REQUEST, Bytes32(xid), 0x80, Zeros(4), Zeros(4), mac);
    ghost var os: seq<Tlv> := [];
    NoOptions(p);
    n := PutOption(buf, FIXED, Tlv(OPT_TYPE, [msgType]), p, os);
    os := os + [Tlv(OPT_TYPE, [msgType])];
    if requested.IsValid() {
      n := PutOption(buf, n, Tlv(OPT_REQUESTED, requested.Bytes()), p, os);
      os := os + [Tlv(OPT_REQUESTED, requested.Bytes())];
    }
    assert os == [Tlv(OPT_TYPE, [msgType])] + AddrOption(OPT_REQUESTED, requested);
    ghost var os2 := os;
    if server.IsValid() {
      n := PutOption(buf, n, Tlv(OPT_SERVER, server.Bytes()), p, os);
      os := os + [Tlv(OPT_SERVER, server.Bytes())];
    }
    assert os == os2 + AddrOption(OPT_SERVER, server);
    n := PutOption(buf, n, Tlv(OPT_PARAMS, [OPT_SUBNET, OPT_ROUTER, OPT_DNS]), p, os);
    os := os + [Tlv(OPT_PARAMS, [OPT_SUBNET, OPT_ROUTER, OPT_DNS])];
    assert os == RequestOptions(msgType, requested, server);
    n := PutEnd(buf, n, p + EncodeOptions(os));
  }

  method PutEnd(buf: array<byte>, i: nat, ghost p: seq<byte>) returns (n: nat)
    requires i == |p| < buf.Length && Filled(buf[..], p)
    modifies buf
    ensures n <= buf.Length && buf[..n] == p + [OPT_END]
  {
    Fill(buf, p, i, [OPT_END]);
    assert p + Zeros(0) + [OPT_END] == p + [OPT_END];
    n := i + 1;
  }

  lemma NoOptions(p: seq<byte>)
    ensures Encodable([]) && p + EncodeOptions([]) == p
  {
  }

  method PutRequestHeader(xid: u32, mac: Mac, buf: array<byte>)
    requires buf.Length == BUFFER
    modifies buf
    ensures Filled(buf[..], Fixed(BOOT_REQUEST, Bytes32(xid), 0x80, Zeros(4), Zeros(4), mac))
  {
    hide Bytes32;
    forall i | 0 <= i < buf.Length {
      buf[i] := 0;
    }
    assert Filled(buf[..], []);
    hide Filled;
    Fill(buf, [], 0, [BOOT_REQUEST, 1, 6, 0]);
    ghost var p := [] + Zeros(0) + [BOOT_REQUEST as byte, 1, 6, 0];
    Fill(buf, p, 4, Bytes32(xid));
    p := p + Zeros(0) + Bytes32(xid);
    Fill(buf, p, 10, [0x80]);
    p := p + Zeros(2) + [0x80];
    PutMacCookie(buf, p, mac);
    assert p + Zeros(17) + mac + Zeros(202) + COOKIE
        == Fixed(BOOT_REQUEST, Bytes32(xid), 0x80, Zeros(4), Zeros(4), mac);
  }

  method PutReplyHeader(xid: Four, mac: Mac, ip: Addr, gateway: Addr, buf: array<byte>)
    requires buf.Length == BUFFER && Filled(buf[..], [])
    modifies buf
    ensures Filled(buf[..], Fixed(BOOT_REPLY, xid, 0, ip.Bytes(), gateway.Bytes(), mac))
  {
    hide Filled;
    Fill(buf, [], 0, [BOOT_REPLY, 1, 6, 0]);
    ghost var p := [] + Zeros(0) + [BOOT_REPLY as byte, 1, 6, 0];
    Fill(buf, p, 4, xid);
    p := p + Zeros(0) + xid;
    Fill(buf, p, 16, ip.Bytes());
    p := p + Zeros(8) + ip.Bytes();
    Fill(buf, p, 20, gateway.Bytes());
    p := p + Zeros(0) + gateway.Bytes();
    ghost var q := [BOOT_REPLY as byte, 1, 6, 0] + xid + [0, 0, 0, 0] + Zeros(4) + ip.Bytes() + gateway.Bytes();
    assert p == q;
    PutMacCookie(buf, q, mac);
  }

  method PutMacCookie(buf: array<byte>, ghost p: seq<byte>, mac: Mac)
    requires buf.Length == BUFFER && Filled(buf[..], p) && |p| <= 28
    modifies buf
    ensures Filled(buf[..], p + Zeros(28 - |p|) + mac + Zeros(202) + COOKIE)
  {
    hide Filled;
    Fill(buf, p, 28, mac);
    Fill(buf, p + Zeros(28 - |p|) + mac, 236, COOKIE);
  }

  method PutReplyOptions(buf: array<byte>, msgType: byte, gateway: Addr, subnet: Addr, ghost p: seq<byte>)
    returns (i: nat)
    requires buf.Length == BUFFER && |p| == FIXED && Filled(buf[..], p)
    modifies buf
    ensures Filled(buf[..], p + EncodeOptions(ReplyOptions(msgType, gateway, subnet)))
    ensures i == |p + EncodeOptions(ReplyOptions(msgType, gateway, subnet))| == FIXED + 33
  {
    hide EncodeOptions, Filled;
    ghost var os := ReplyOptions(msgType, gateway, subnet);
    NoOptions(p);
    assert os[..0] == [];
    i := PutNext(buf, FIXED, Tlv(OPT_TYPE, [msgType]), p, os, 0);
    i := PutNext(buf, i, Tlv(OPT_SUBNET, subnet.Bytes()), p, os, 1);
    i := PutNext(buf, i, Tlv(OPT_ROUTER, gateway.Bytes()), p, os, 2);
    i := PutNext(buf, i, Tlv(OPT_DNS, gateway.Bytes()), p, os, 3);
    i := PutNext(buf, i, Tlv(OPT_LEASE, [0, 0, 0x0E, 0x10]), p, os, 4);
    i := PutNext(buf, i, Tlv(OPT_SERVER, gateway.Bytes()), p, os, 5);
    assert os[..6] == os;
  }

  method BuildReply(xid: Four, mac: Mac, msgType: byte, ip: Addr, gateway: Addr, subnet: Addr)
    returns (pkt: seq<byte>)
    ensures pkt == ReplyBytes(xid, mac, msgType, ip, gateway, subnet)
  {
    hide EncodeOptions, Fixed, ReplyOptions;
    var buf := new byte[BUFFER](_ => 0);
    assert Filled(buf[..], []);
    hide Filled;
    PutReplyHeader(xid, mac, ip, gateway, buf);
    ghost var p := Fixed(BOOT_REPLY, xid, 0, ip.Bytes(), gateway.Bytes(), mac);
    ghost var os := ReplyOptions(msgType, gateway, subnet);
    var i := PutReplyOptions(buf, msgType, gateway, subnet, p);
    i := PutEnd(buf, i, p + EncodeOptions(os));
    pkt := buf[..i];
  }
}
