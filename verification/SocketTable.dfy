/** The fixed socket table: allocation, ephemeral ports and demultiplexing
    (stack/socket.go, stack/tcp.go, stack/api.go). */
module SocketTable {
  import opened Words
  import opened Tcp

  const MAX_SOCKETS := 8
  const BASE := 49152
  const COUNT := 16383

  datatype Protocol = NoProtocol | TcpProtocol | UdpProtocol

  /** The fields of a socket that name its ends: its addresses, and the links between a listener and the connections
      it spawns; -1 is no link. */
  datatype Slot = Slot(state: SockState, protocol: Protocol, localPort: u16, remotePort: u16, remoteAddr: Addr,
                       localAddr: Addr, pendingConn: int, listenerFd: int, selfFd: int)

  const EMPTY := Slot(Free, NoProtocol, 0, 0, NoAddr, NoAddr, -1, -1, -1)

  datatype Result = Fd(fd: nat) | NoSuchSocket

  /** uint16(BASE + (from-BASE+i)%COUNT) */
  function Probe(from: u16, i: nat): nat
    requires BASE <= from
  {
    BASE + (from - BASE + i) % COUNT
  }

  function UsedPorts(ss: seq<Slot>): set<int> {
    set i | 0 <= i < |ss| && ss[i].state != Free :: ss[i].localPort as int
  }

  ghost predicate Matches(s: Slot, remote: Addr, remotePort: u16, localPort: u16) {
    && s.state != Free && s.protocol == TcpProtocol && s.state != Listening
    && HasTuple(s, remote, remotePort, localPort)
  }

  ghost predicate IsFirst(ss: seq<Slot>, p: Slot -> bool, r: Result) {
    match r
    case Fd(i) => i < |ss| && p(ss[i]) && forall j | 0 <= j < i :: !p(ss[j])
    case NoSuchSocket => forall j | 0 <= j < |ss| :: !p(ss[j])
  }

  class Table {
    const sockets: array<Slot>
    var ephemeralPort: u16
    /** The stack's own address, NoAddr while it has none. */
    var localIp: Addr

    ghost predicate Valid()
      reads this
    {
      sockets.Length == MAX_SOCKETS && BASE <= ephemeralPort
    }

    constructor ()
      ensures Valid() && fresh(sockets) && ephemeralPort == BASE && localIp == NoAddr
      ensures forall i | 0 <= i < MAX_SOCKETS :: sockets[i] == EMPTY
    {
      sockets := new Slot[MAX_SOCKETS](_ => EMPTY);
      ephemeralPort, localIp := BASE, NoAddr;
    }

    method Alloc() returns (r: Result)
      requires Valid()
      modifies sockets
      ensures IsFirst(old(sockets[..]), (s: Slot) => s.state == Free, r)
      ensures sockets[..] == if r.Fd? then old(sockets[..])[r.fd := EMPTY] else old(sockets[..])
    {
      for i := 0 to sockets.Length
        invariant forall j | 0 <= j < i :: sockets[j].state != Free
        invariant sockets[..] == old(sockets[..])
      {
        if sockets[i].state == Free {
          sockets[i] := EMPTY;
          return Fd(i);
        }
      }
      return NoSuchSocket;
    }

    method FindTcp(remote: Addr, remotePort: u16, localPort: u16) returns (r: Result)
      ensures IsFirst(sockets[..], (s: Slot) => Matches(s, remote, remotePort, localPort), r)
    {
      for i := 0 to sockets.Length
        invariant forall j | 0 <= j < i :: !Matches(sockets[j], remote, remotePort, localPort)
      {
        var s := sockets[i];
        if s.state == Free || s.protocol != TcpProtocol || s.state == Listening {
          continue;
        }
        if s.localPort == localPort && s.remotePort == remotePort && s.remoteAddr == remote {
          return Fd(i);
        }
      }
      return NoSuchSocket;
    }

    method FindListening(localPort: u16) returns (r: Result)
      ensures IsFirst(sockets[..], (s: Slot) => s.state == Listening && s.localPort == localPort, r)
    {
      for i := 0 to sockets.Length
        invariant forall j | 0 <= j < i :: !(sockets[j].state == Listening && sockets[j].localPort == localPort)
      {
        if sockets[i].state == Listening && sockets[i].localPort == localPort {
          return Fd(i);
        }
      }
      return NoSuchSocket;
    }

    /** A port in 49152..65534 that no socket in use has, found within nine probes. The source's fallback
        after the loop is never reached. */
    method NextEphemeralPort() returns (port: u16, ghost probes: nat)
      requires Valid()
      modifies this`ephemeralPort
      ensures Valid() && BASE <= port < BASE + COUNT && ephemeralPort == port + 1
      ensures port as int !in UsedPorts(sockets[..])
      ensures 1 <= probes <= MAX_SOCKETS + 1 && port == Probe(old(ephemeralPort), probes - 1)
      ensures forall k | 0 <= k < probes - 1 :: Probe(old(ephemeralPort), k) in UsedPorts(sockets[..])
    {
      port, probes := BASE, 0;
      for i := 0 to COUNT
        invariant i <= MAX_SOCKETS && ephemeralPort == old(ephemeralPort)
        invariant forall k | 0 <= k < i :: Probe(ephemeralPort, k) in UsedPorts(sockets[..])
      {
        ProbeRange(ephemeralPort, i);
        port := Probe(ephemeralPort, i);
        var used := false;
        for j := 0 to sockets.Length
          invariant !used ==> forall m | 0 <= m < j :: !(sockets[m].state != Free && sockets[m].localPort == port)
          invariant used ==> port as int in UsedPorts(sockets[..])
        {
          if sockets[j].state != Free && sockets[j].localPort == port {
            used := true;
            assert sockets[..][j].localPort == port;
            break;
          }
        }
        if !used {
          ephemeralPort := port + 1;
          probes := i + 1;
          return;
        }
        TooManyUsed(sockets[..], ephemeralPort, i + 1);
      }
      assert false;
    }

    method NewSocket(p: Protocol) returns (r: Result)
      requires Valid() && p != NoProtocol
      modifies sockets
      ensures sockets[..] == AfterNew(old(sockets[..]), p, r)
      ensures IsFirst(old(sockets[..]), (s: Slot) => s.state == Free, r)
    {
      r := Alloc();
      if r.Fd? {
        sockets[r.fd] := sockets[r.fd].(state := Bound, protocol := p);
      }
    }

    method Bind(fd: nat, port: u16) returns (ok: bool)
      requires Valid()
      modifies sockets
      ensures ok == (fd < MAX_SOCKETS && old(sockets[..])[fd].state != Free)
      ensures sockets[..] == if ok then AfterBind(old(sockets[..]), fd, localIp, port) else old(sockets[..])
    {
      ok := fd < MAX_SOCKETS && sockets[fd].state != Free;
      if ok {
        sockets[fd] := sockets[fd].(localPort := port, localAddr := localIp);
      }
    }

    method Listen(fd: nat) returns (ok: bool)
      requires Valid()
      modifies sockets
      ensures ok == (fd < MAX_SOCKETS && old(sockets[..])[fd].state != Free
                     && old(sockets[..])[fd].protocol == TcpProtocol)
      ensures sockets[..] == if ok then AfterListen(old(sockets[..]), fd) else old(sockets[..])
    {
      ok := fd < MAX_SOCKETS && sockets[fd].state != Free && sockets[fd].protocol == TcpProtocol;
      if ok {
        sockets[fd] := sockets[fd].(state := Listening, pendingConn := -1);
      }
    }

    /** The addressing part of Connect; an unbound socket gets a fresh local port. */
    method Connect(fd: nat, addr: Addr, port: u16) returns (ok: bool)
      requires Valid()
      modifies this`ephemeralPort, sockets
      ensures Valid()
      ensures ok == (fd < MAX_SOCKETS && old(sockets[..])[fd].state != Free)
      ensures !ok ==> sockets[..] == old(sockets[..])
      ensures ok ==> sockets[..] == AfterConnect(old(sockets[..]), fd, localIp, addr, port, sockets[fd].localPort)
      ensures ok ==> GoodLocalPort(old(sockets[..]), fd, sockets[fd].localPort)
      ensures ok ==> sockets[fd].protocol == old(sockets[fd].protocol)
                     && (sockets[fd].state == Connected <==> sockets[fd].protocol == UdpProtocol)
                     && (sockets[fd].state == Connecting <==> sockets[fd].protocol != UdpProtocol)
    {
      ok := fd < MAX_SOCKETS && sockets[fd].state != Free;
      if !ok {
        return;
      }
      var local := sockets[fd].localPort;
      if local == 0 {
        ghost var probes;
        local, probes := NextEphemeralPort();
      }
      sockets[fd] := sockets[fd].(remoteAddr := addr, remotePort := port, localAddr := localIp, localPort := local,
                                  state := if sockets[fd].protocol == UdpProtocol then Connected else Connecting);
    }

    /** A segment with SYN: given to the matching socket if there is one, else spawned off the first listener into
        the first free slot. */
    method HandleSyn(remote: Addr, remotePort: u16, localPort: u16) returns (r: Result)
      requires Valid()
      modifies sockets
      ensures r == NoSuchSocket ==>
                && sockets[..] == old(sockets[..])
                && forall fd, l :: !SpawnAllowed(old(sockets[..]), fd, l, remote, remotePort, localPort)
      ensures r.Fd? ==>
                && IsFirst(old(sockets[..]), (s: Slot) => s.state == Free, r)
                && exists l ::
                     && SpawnAllowed(old(sockets[..]), r.fd, l, remote, remotePort, localPort)
                     && sockets[..] == AfterSpawn(old(sockets[..]), r.fd, l, localIp, remote, remotePort, localPort)
    {
      ghost var ss := sockets[..];
      var existing := FindTcp(remote, remotePort, localPort);
      if existing.Fd? {
        return NoSuchSocket;
      }
      var listener := FindListening(localPort);
      if listener == NoSuchSocket {
        return NoSuchSocket;
      }
      r := Alloc();
      if r.Fd? {
        sockets[r.fd] := Slot(Connecting, TcpProtocol, localPort, remotePort, remote, localIp, -1, listener.fd, r.fd);
        assert SpawnAllowed(ss, r.fd, listener.fd, remote, remotePort, localPort);
      }
    }

    /** The last segment of a handshake: the listener, if there is one, is told. */
    method Complete(fd: nat)
      requires Valid() && fd < MAX_SOCKETS && sockets[fd].listenerFd < MAX_SOCKETS
      modifies sockets
      ensures sockets[..] == AfterComplete(old(sockets[..]), fd)
    {
      sockets[fd] := sockets[fd].(state := Connected);
      var listener := sockets[fd].listenerFd;
      if listener >= 0 {
        sockets[listener] := sockets[listener].(pendingConn := sockets[fd].selfFd);
      }
    }

    /** Hands out the pending connection of a listener, without waiting. */
    method TryAccept(fd: nat) returns (conn: int)
      requires Valid()
      modifies sockets
      ensures var ss := old(sockets[..]);
              && conn == (if fd < MAX_SOCKETS && ss[fd].state == Listening && ss[fd].pendingConn >= 0
                          then ss[fd].pendingConn else -1)
              && sockets[..] == if conn >= 0 then ss[fd := ss[fd].(pendingConn := -1)] else ss
    {
      if fd >= MAX_SOCKETS || sockets[fd].state != Listening {
        return -1;
      }
      if sockets[fd].pendingConn < 0 {
        return -1;
      }
      conn := sockets[fd].pendingConn;
      sockets[fd] := sockets[fd].(pendingConn := -1);
    }
  }

  // ---------------------------------------------------------------- probing

  lemma ProbeRange(from: u16, i: nat)
    requires BASE <= from
    ensures BASE <= Probe(from, i) < BASE + COUNT
  {
  }

  lemma ProbeInjective(from: u16, i: nat, j: nat)
    requires BASE <= from && i < j < COUNT
    ensures Probe(from, i) != Probe(from, j)
  {
    var x := from - BASE;
    var qi, qj := (x + i) / COUNT, (x + j) / COUNT;
    assert x + i == qi * COUNT + (x + i) % COUNT && x + j == qj * COUNT + (x + j) % COUNT;
  }

  function Probes(from: u16, n: nat): set<int>
    requires BASE <= from
  {
    set k | 0 <= k < n :: Probe(from, k)
  }

  lemma {:induction false} ProbesCount(from: u16, n: nat)
    requires BASE <= from && n <= COUNT
    ensures |Probes(from, n)| == n
  {
    if n == 0 {
    } else {
      ProbesCount(from, n - 1);
      forall k | 0 <= k < n - 1
        ensures Probe(from, k) != Probe(from, n - 1)
      {
        ProbeInjective(from, k, n - 1);
      }
      assert Probes(from, n) == Probes(from, n - 1) + {Probe(from, n - 1)};
    }
  }

  lemma {:induction false} UsedCount(ss: seq<Slot>)
    ensures |UsedPorts(ss)| <= |ss|
  {
    if ss == [] {
    } else {
      var n := |ss| - 1;
      UsedCount(ss[..n]);
      assert UsedPorts(ss) == UsedPorts(ss[..n]) + (if ss[n].state != Free then {ss[n].localPort as int} else {});
    }
  }

  /** Pigeonhole: eight sockets cannot use nine distinct ports. */
  lemma TooManyUsed(ss: seq<Slot>, from: u16, n: nat)
    requires BASE <= from && |ss| == MAX_SOCKETS && n <= MAX_SOCKETS + 1
    requires forall k | 0 <= k < n :: Probe(from, k) in UsedPorts(ss)
    ensures n <= MAX_SOCKETS
  {
    ProbesCount(from, n);
    UsedCount(ss);
    assert UsedPorts(ss) == Probes(from, n) + (UsedPorts(ss) - Probes(from, n));
  }

  // ---------------------------------------------------------------- runs of the table

  function AfterNew(ss: seq<Slot>, p: Protocol, r: Result): seq<Slot> {
    if r.Fd? && r.fd < |ss| then ss[r.fd := EMPTY.(state := Bound, protocol := p)] else ss
  }

  function AfterBind(ss: seq<Slot>, fd: nat, own: Addr, port: u16): seq<Slot>
    requires fd < |ss|
  {
    ss[fd := ss[fd].(localPort := port, localAddr := own)]
  }

  function AfterListen(ss: seq<Slot>, fd: nat): seq<Slot>
    requires fd < |ss|
  {
    ss[fd := ss[fd].(state := Listening, pendingConn := -1)]
  }

  function AfterConnect(ss: seq<Slot>, fd: nat, own: Addr, addr: Addr, port: u16, local: u16): seq<Slot>
    requires fd < |ss|
  {
    ss[fd := ss[fd].(remoteAddr := addr, remotePort := port, localAddr := own, localPort := local,
                     state := if ss[fd].protocol == UdpProtocol then Connected else Connecting)]
  }

  /** A bound socket keeps its port; an unbound one gets a port no socket in use has. */
  ghost predicate GoodLocalPort(ss: seq<Slot>, fd: nat, local: u16)
    requires fd < |ss|
  {
    if ss[fd].localPort != 0 then local == ss[fd].localPort else local as int !in UsedPorts(ss)
  }

  function AfterSpawn(ss: seq<Slot>, fd: nat, listener: nat, own: Addr, remote: Addr, remotePort: u16,
                      localPort: u16): seq<Slot>
    requires fd < |ss|
  {
    ss[fd := Slot(Connecting, TcpProtocol, localPort, remotePort, remote, own, -1, listener, fd)]
  }

  /** No socket has the addresses, a slot is free, and listener is the first on the port. */
  ghost predicate SpawnAllowed(ss: seq<Slot>, fd: nat, listener: nat, remote: Addr, remotePort: u16, localPort: u16) {
    && fd < |ss| && ss[fd].state == Free
    && (forall j | 0 <= j < |ss| :: !Matches(ss[j], remote, remotePort, localPort))
    && IsFirst(ss, (s: Slot) => s.state == Listening && s.localPort == localPort, Fd(listener))
  }

  function AfterComplete(ss: seq<Slot>, fd: nat): seq<Slot>
    requires fd < |ss| && ss[fd].listenerFd < |ss|
  {
    var done := ss[fd := ss[fd].(state := Connected)];
    var l := ss[fd].listenerFd;
    if l < 0 then done else done[l := done[l].(pendingConn := ss[fd].selfFd)]
  }

  /** A TCP socket past its opening call, whatever became of the connection. */
  ghost predicate Opened(s: Slot) {
    s.protocol == TcpProtocol && s.state in {Connecting, Connected, Closing, Closed}
  }

  ghost predicate HasTuple(s: Slot, remote: Addr, remotePort: u16, localPort: u16) {
    s.localPort == localPort && s.remotePort == remotePort && s.remoteAddr == remote
  }

  ghost predicate SameTuple(s: Slot, t: Slot) {
    HasTuple(s, t.remoteAddr, t.remotePort, t.localPort)
  }

  ghost predicate Unique(ss: seq<Slot>) {
    && (forall i, j | 0 <= i < j < |ss| && Opened(ss[i]) && Opened(ss[j]) :: !SameTuple(ss[i], ss[j]))
    && (forall i | 0 <= i < |ss| && ss[i].state == Bound && ss[i].protocol == TcpProtocol ::
          ss[i].remoteAddr == NoAddr)
  }

  datatype Move =
    | New(fd: nat, p: Protocol)
    | BindTo(fd: nat, own: Addr, port: u16)
    | ListenOn(fd: nat)
    | ConnectTo(fd: nat, own: Addr, addr: Addr, port: u16, local: u16)
    | SynFrom(fd: nat, listener: nat, own: Addr, remote: Addr, port: u16, local: u16)
    | Traffic(fd: nat, state: SockState)
    | Adopt(fd: nat, remote: Addr, port: u16)
    | Release(fd: nat)

  /** Sockets connect once, and bound ones only to where no opened socket is; sockets past their opening call are not
      bound again; traffic moves an opened socket between its states; and a UDP socket adopts a sender. */
  ghost predicate Allowed(ss: seq<Slot>, m: Move) {
    && m.fd < |ss|
    && match m
       case New(fd, _) => ss[fd].state == Free
       case BindTo(fd, _, _) => ss[fd].state == Bound
       case ListenOn(fd) => ss[fd].state == Bound && ss[fd].protocol == TcpProtocol
       case ConnectTo(fd, _, addr, port, local) =>
         && ss[fd].state == Bound && GoodLocalPort(ss, fd, local)
         && (ss[fd].protocol == TcpProtocol && ss[fd].localPort != 0 ==> Unused(ss, addr, port, local))
       case SynFrom(fd, listener, _, remote, port, local) => SpawnAllowed(ss, fd, listener, remote, port, local)
       case Traffic(fd, state) => Opened(ss[fd]) && state in {Connecting, Connected, Closing, Closed}
       case Adopt(fd, _, _) => ss[fd].state != Free && ss[fd].protocol == UdpProtocol
       case Release(_) => true
  }

  function Apply(ss: seq<Slot>, m: Move): seq<Slot>
    requires m.fd < |ss|
  {
    match m
    case New(fd, p) => AfterNew(ss, p, Fd(fd))
    case BindTo(fd, own, port) => AfterBind(ss, fd, own, port)
    case ListenOn(fd) => AfterListen(ss, fd)
    case ConnectTo(fd, own, addr, port, local) => AfterConnect(ss, fd, own, addr, port, local)
    case SynFrom(fd, listener, own, remote, port, local) => AfterSpawn(ss, fd, listener, own, remote, port, local)
    case Traffic(fd, state) => ss[fd := ss[fd].(state := state)]
    case Adopt(fd, remote, port) => ss[fd := ss[fd].(remoteAddr := remote, remotePort := port)]
    case Release(fd) => ss[fd := EMPTY]
  }

  /** No opened socket has these addresses: what FindTcp can tell a caller before it connects. */
  ghost predicate Unused(ss: seq<Slot>, addr: Addr, port: u16, local: u16) {
    forall j | 0 <= j < |ss| && Opened(ss[j]) :: !HasTuple(ss[j], addr, port, local)
  }

  lemma FindTells(ss: seq<Slot>, addr: Addr, port: u16, local: u16, r: Result)
    requires Unique(ss) && addr.IsValid() && IsFirst(ss, (s: Slot) => Matches(s, addr, port, local), r)
    ensures Unused(ss, addr, port, local) <==> r == NoSuchSocket
  {
    if j :| 0 <= j < |ss| && Opened(ss[j]) && HasTuple(ss[j], addr, port, local) {
      assert Matches(ss[j], addr, port, local);
    }
  }

  /** Connecting a bound TCP socket keeps the addresses of opened sockets distinct if and only if no opened socket
      has the new ones. */
  lemma ConnectExact(ss: seq<Slot>, fd: nat, own: Addr, addr: Addr, port: u16, local: u16)
    requires Unique(ss) && fd < |ss| && ss[fd].state == Bound && ss[fd].protocol == TcpProtocol
    ensures Unique(AfterConnect(ss, fd, own, addr, port, local)) <==> Unused(ss, addr, port, local)
  {
    var r := AfterConnect(ss, fd, own, addr, port, local);
    assert Opened(r[fd]) && !Opened(ss[fd]);
    if Unique(r) {
      forall j | 0 <= j < |ss| && Opened(ss[j])
        ensures !HasTuple(ss[j], addr, port, local)
      {
        assert j != fd && r[j] == ss[j];
        assert !SameTuple(r[j], r[fd]) && !SameTuple(r[fd], r[j]) by {
          assert if j < fd then !SameTuple(r[j], r[fd]) else !SameTuple(r[fd], r[j]);
        }
      }
    }
  }

  /** A fresh local port is always unused, so an unbound socket may connect anywhere. */
  lemma FreshUnused(ss: seq<Slot>, fd: nat, addr: Addr, port: u16, local: u16)
    requires fd < |ss| && ss[fd].localPort == 0 && GoodLocalPort(ss, fd, local)
    ensures Unused(ss, addr, port, local)
  {
    forall j | 0 <= j < |ss| && Opened(ss[j])
      ensures ss[j].localPort != local
    {
      assert ss[j].localPort as int in UsedPorts(ss);
    }
  }

  lemma ConnectUnique(ss: seq<Slot>, fd: nat, own: Addr, addr: Addr, port: u16, local: u16)
    requires Unique(ss) && fd < |ss| && ss[fd].state == Bound
    requires ss[fd].protocol == TcpProtocol ==> Unused(ss, addr, port, local)
    ensures Unique(AfterConnect(ss, fd, own, addr, port, local))
  {
    if ss[fd].protocol == TcpProtocol {
      ConnectExact(ss, fd, own, addr, port, local);
    }
  }

  lemma SpawnUnique(ss: seq<Slot>, fd: nat, listener: nat, own: Addr, remote: Addr, remotePort: u16, localPort: u16)
    requires Unique(ss) && SpawnAllowed(ss, fd, listener, remote, remotePort, localPort)
    ensures Unique(AfterSpawn(ss, fd, listener, own, remote, remotePort, localPort))
  {
    forall j | 0 <= j < |ss| && Opened(ss[j])
      ensures !HasTuple(ss[j], remote, remotePort, localPort)
    {
      assert !Matches(ss[j], remote, remotePort, localPort);
    }
  }

  lemma OtherUnique(ss: seq<Slot>, fd: nat, s: Slot)
    requires Unique(ss) && fd < |ss|
    requires Opened(s) ==> Opened(ss[fd]) && SameTuple(s, ss[fd])
    requires s.state == Bound && s.protocol == TcpProtocol ==> s.remoteAddr == NoAddr
    ensures Unique(ss[fd := s])
  {
  }

  /** Every step keeps at most one opened TCP socket per remote address, remote port and local port. */
  lemma MoveUnique(ss: seq<Slot>, m: Move)
    requires Unique(ss) && Allowed(ss, m)
    ensures Unique(Apply(ss, m))
  {
    match m {
      case New(fd, p) => OtherUnique(ss, fd, EMPTY.(state := Bound, protocol := p));
      case BindTo(fd, own, port) => OtherUnique(ss, fd, ss[fd].(localPort := port, localAddr := own));
      case ListenOn(fd) => OtherUnique(ss, fd, ss[fd].(state := Listening, pendingConn := -1));
      case ConnectTo(fd, own, addr, port, local) =>
        if ss[fd].localPort == 0 {
          FreshUnused(ss, fd, addr, port, local);
        }
        ConnectUnique(ss, fd, own, addr, port, local);
      case SynFrom(fd, listener, own, remote, port, local) =>
        SpawnUnique(ss, fd, listener, own, remote, port, local);
      case Traffic(fd, state) => OtherUnique(ss, fd, ss[fd].(state := state));
      case Adopt(fd, remote, port) => OtherUnique(ss, fd, ss[fd].(remoteAddr := remote, remotePort := port));
      case Release(fd) => OtherUnique(ss, fd, EMPTY);
    }
  }

  ghost predicate IsRun(ss: seq<Slot>, ms: seq<Move>, end: seq<Slot>)
    decreases |ms|
  {
    if ms == [] then end == ss
    else Allowed(ss, ms[0]) && IsRun(Apply(ss, ms[0]), ms[1..], end)
  }

  lemma {:induction false} RunUnique(ss: seq<Slot>, ms: seq<Move>, end: seq<Slot>)
    requires Unique(ss) && IsRun(ss, ms, end)
    ensures Unique(end)
    decreases |ms|
  {
    if ms == [] {
    } else {
      MoveUnique(ss, ms[0]);
      RunUnique(Apply(ss, ms[0]), ms[1..], end);
    }
  }

  /** Demultiplexing is unambiguous in every run from the empty table: a segment from a real address goes
      to a socket if and only if that socket is the opened one with exactly its addresses. */
  lemma DemultiplexExact(ms: seq<Move>, ss: seq<Slot>, i: nat, remote: Addr, remotePort: u16, localPort: u16,
                         r: Result)
    requires IsRun(seq(MAX_SOCKETS, _ => EMPTY), ms, ss) && i < |ss| && remote.IsValid()
    requires IsFirst(ss, (s: Slot) => Matches(s, remote, remotePort, localPort), r)
    ensures r == Fd(i) <==>
            Opened(ss[i]) && HasTuple(ss[i], remote, remotePort, localPort)
  {
    RunUnique(seq(MAX_SOCKETS, _ => EMPTY), ms, ss);
    if r.Fd? {
      assert Matches(ss[r.fd], remote, remotePort, localPort);
      assert Opened(ss[r.fd]);
    }
    if Opened(ss[i]) && HasTuple(ss[i], remote, remotePort, localPort) {
      assert Matches(ss[i], remote, remotePort, localPort);
      assert r.Fd?;
      assert SameTuple(ss[i], ss[r.fd]) && SameTuple(ss[r.fd], ss[i]);
    }
  }

  /** Where it fails, the segments of the common addresses all go to one of the two sockets and the other never
      hears them. */
  lemma CollisionStarves(ss: seq<Slot>, fd: nat, own: Addr, addr: Addr, port: u16, local: u16, r: Result)
    requires fd < |ss| && ss[fd].state == Bound && ss[fd].protocol == TcpProtocol && !Unused(ss, addr, port, local)
    requires IsFirst(AfterConnect(ss, fd, own, addr, port, local), (s: Slot) => Matches(s, addr, port, local), r)
    ensures var after := AfterConnect(ss, fd, own, addr, port, local);
            && r.Fd? && r.fd < |ss|
            && exists j :: 0 <= j < |ss| && j != r.fd && Opened(after[j]) && SameTuple(after[j], after[r.fd])
  {
    var after := AfterConnect(ss, fd, own, addr, port, local);
    var j :| 0 <= j < |ss| && Opened(ss[j]) && HasTuple(ss[j], addr, port, local);
    assert j != fd && after[j] == ss[j];
    assert Matches(after[fd], addr, port, local) && Matches(after[j], addr, port, local);
    assert r.Fd?;
    var other := if r.fd == fd then j else fd;
    assert SameTuple(after[other], after[r.fd]);
  }

  // ---------------------------------------------------------------- pending connections

  /** What happens to a listener: a connection completes its handshake, or the application accepts. */
  datatype ListenerOp = Finish(conn: nat) | Take

  /** The connections handed out, in order; the listener has room for one (Complete, TryAccept). */
  function HandedOut(pending: int, ops: seq<ListenerOp>): seq<int>
    decreases |ops|
  {
    if ops == [] then []
    else
      match ops[0]
      case Finish(conn) => HandedOut(conn, ops[1..])
      case Take => (if pending >= 0 then [pending] else []) + HandedOut(-1, ops[1..])
  }

  ghost predicate Linked(ss: seq<Slot>, l: nat, conn: nat) {
    conn < |ss| && conn != l && ss[conn].listenerFd == l && ss[conn].selfFd == conn
  }

  /** The table itself, with connections of listener l completing and the application accepting in any order. */
  method DriveAccept(t: Table, l: nat, ops: seq<ListenerOp>) returns (out: seq<int>)
    requires t.Valid() && l < MAX_SOCKETS && t.sockets[l].state == Listening
    requires forall i | 0 <= i < |ops| && ops[i].Finish? :: Linked(t.sockets[..], l, ops[i].conn)
    modifies t.sockets
    ensures out == HandedOut(old(t.sockets[l].pendingConn), ops)
  {
    out := [];
    ghost var all := HandedOut(t.sockets[l].pendingConn, ops);
    assert ops[0..] == ops && [] + all == all;
    for k := 0 to |ops|
      invariant t.Valid() && t.sockets[l].state == Listening
      invariant forall i | 0 <= i < |ops| && ops[i].Finish? :: Linked(t.sockets[..], l, ops[i].conn)
      invariant out + HandedOut(t.sockets[l].pendingConn, ops[k..]) == all
    {
      HandedOutStep(t.sockets[l].pendingConn, ops, k);
      ghost var ss := t.sockets[..];
      match ops[k] {
        case Finish(conn) =>
          assert Linked(ss, l, conn);
          t.Complete(conn);
        case Take =>
          var conn := t.TryAccept(l);
          if conn >= 0 {
            out := out + [conn];
          }
      }
      assert forall i | 0 <= i < |ops| && ops[i].Finish? :: Linked(ss, l, ops[i].conn);
    }
  }

  lemma HandedOutStep(pending: int, ops: seq<ListenerOp>, k: nat)
    requires k < |ops|
    ensures HandedOut(pending, ops[k..]) ==
            match ops[k]
            case Finish(conn) => HandedOut(conn, ops[k + 1..])
            case Take => (if pending >= 0 then [pending] else []) + HandedOut(-1, ops[k + 1..])
  {
    assert ops[k..][1..] == ops[k + 1..];
  }

  /** What is pending after the ops. */
  function PendingAfter(pending: int, ops: seq<ListenerOp>): int {
    if ops == [] then pending
    else if ops[|ops| - 1].Finish? then ops[|ops| - 1].conn
    else -1
  }

  lemma {:induction false} HandedOutSplit(pending: int, pre: seq<ListenerOp>, rest: seq<ListenerOp>)
    ensures HandedOut(pending, pre + rest) == HandedOut(pending, pre) + HandedOut(PendingAfter(pending, pre), rest)
    decreases |pre|
  {
    if pre == [] {
      assert pre + rest == rest;
    } else {
      var next := if pre[0].Finish? then pre[0].conn else -1;
      assert (pre + rest)[1..] == pre[1..] + rest;
      HandedOutSplit(next, pre[1..], rest);
      assert PendingAfter(next, pre[1..]) == PendingAfter(pending, pre);
    }
  }

  /** A completed connection is handed out at its place if the application accepts next; if another completes next, or
      nothing more happens, it is as if it had never completed. */
  lemma AcceptExact(pending: int, pre: seq<ListenerOp>, a: nat, b: nat, rest: seq<ListenerOp>)
    ensures HandedOut(pending, pre + [Finish(a), Take] + rest)
         == HandedOut(pending, pre) + [a] + HandedOut(-1, rest)
    ensures HandedOut(pending, pre + [Finish(a), Finish(b)] + rest) == HandedOut(pending, pre + [Finish(b)] + rest)
    ensures HandedOut(pending, pre + [Finish(a)]) == HandedOut(pending, pre)
  {
    var p := PendingAfter(pending, pre);
    assert pre + [Finish(a), Take] + rest == pre + ([Finish(a), Take] + rest);
    assert pre + [Finish(a), Finish(b)] + rest == pre + ([Finish(a), Finish(b)] + rest);
    assert pre + [Finish(b)] + rest == pre + ([Finish(b)] + rest);
    HandedOutSplit(pending, pre, [Finish(a), Take] + rest);
    HandedOutSplit(pending, pre, [Finish(a), Finish(b)] + rest);
    HandedOutSplit(pending, pre, [Finish(b)] + rest);
    HandedOutSplit(pending, pre, [Finish(a)]);
    HandedOutHeads(p, a, b, rest);
  }

  lemma HandedOutHeads(p: int, a: nat, b: nat, rest: seq<ListenerOp>)
    ensures HandedOut(p, [Finish(a), Take] + rest) == [a] + HandedOut(-1, rest)
    ensures HandedOut(p, [Finish(a), Finish(b)] + rest) == HandedOut(b, rest) == HandedOut(p, [Finish(b)] + rest)
    ensures HandedOut(p, [Finish(a)]) == []
  {
    var x, y, z := [Finish(a), Take] + rest, [Finish(a), Finish(b)] + rest, [Finish(b)] + rest;
    HandedOutStep(p, x, 0);
    HandedOutStep(a, x, 1);
    HandedOutStep(p, y, 0);
    HandedOutStep(a, y, 1);
    HandedOutStep(p, z, 0);
    HandedOutStep(p, [Finish(a)], 0);
    assert x[0..] == x && y[0..] == y && z[0..] == z && [Finish(a)][0..] == [Finish(a)];
    assert x[2..] == rest && y[2..] == rest && z[1..] == rest;
  }
}
