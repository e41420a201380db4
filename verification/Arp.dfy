/** The ARP table of stack/arp.go: sixteen slots, refreshed and evicted by expiry time.
    The main result is that this is an exact least-recently-updated cache. */
module Arp {
  import opened Words

  const LEN := 16
  /** Five minutes, in seconds. */
  const TTL := 300

  datatype Entry = Entry(ip: Addr, mac: Mac, expiry: int, valid: bool)
  datatype Answer = Miss | Hit(mac: Mac)

  // ---------------------------------------------------------------- the table as a value

  /** The first valid slot holding ip, or |es|. */
  function Find(es: seq<Entry>, ip: Addr): (k: nat)
    ensures k <= |es|
    ensures k < |es| ==> es[k].valid && es[k].ip == ip
    ensures forall i | 0 <= i < k :: !(es[i].valid && es[i].ip == ip)
  {
    if es == [] then 0
    else if es[0].valid && es[0].ip == ip then 0
    else 1 + Find(es[1..], ip)
  }

  function Lookup(es: seq<Entry>, ip: Addr): Answer {
    var k := Find(es, ip);
    if k < |es| then Hit(es[k].mac) else Miss
  }

  /** k is the slot a new address takes: the first free one, else the first with the least expiry. */
  ghost predicate IsVictim(es: seq<Entry>, k: nat) {
    && k < |es|
    && if exists i :: 0 <= i < |es| && !es[i].valid
       then !es[k].valid && forall i | 0 <= i < k :: es[i].valid
       else forall i | 0 <= i < |es| ::
           if i < k then es[k].expiry < es[i].expiry else es[k].expiry <= es[i].expiry
  }

  ghost predicate IsUpdate(es: seq<Entry>, ip: Addr, mac: Mac, now: int, es': seq<Entry>) {
    var entry := Entry(ip, mac, now + TTL, true);
    var k := Find(es, ip);
    if k < |es| then es' == es[k := entry]
    else exists v: nat :: IsVictim(es, v) && es' == es[v := entry]
  }

  // ---------------------------------------------------------------- the code

  class ArpTable {
    const entries: array<Entry>

    constructor ()
      ensures entries.Length == LEN && fresh(entries)
      ensures forall i | 0 <= i < LEN :: !entries[i].valid
    {
      entries := new Entry[LEN](_ => Entry(NoAddr, [0, 0, 0, 0, 0, 0], 0, false));
    }

    method Get(ip: Addr) returns (r: Answer)
      ensures r == Lookup(entries[..], ip)
    {
      for i := 0 to entries.Length
        invariant forall j | 0 <= j < i :: !(entries[j].valid && entries[j].ip == ip)
      {
        if entries[i].valid && entries[i].ip == ip {
          return Hit(entries[i].mac);
        }
      }
      return Miss;
    }

    method Update(ip: Addr, mac: Mac, now: int)
      requires entries.Length == LEN
      modifies entries
      ensures IsUpdate(old(entries[..]), ip, mac, now, entries[..])
    {
      for i := 0 to entries.Length
        invariant forall j | 0 <= j < i :: !(entries[j].valid && entries[j].ip == ip)
        invariant entries[..] == old(entries[..])
      {
        var e := entries[i];
        if e.valid && e.ip == ip {
          entries[i] := e.(mac := mac, expiry := now + TTL);
          return;
        }
      }
      var oldest := Victim();
      entries[oldest] := Entry(ip, mac, now + TTL, true);
    }

    method Victim() returns (oldest: nat)
      requires entries.Length == LEN
      ensures IsVictim(entries[..], oldest)
    {
      oldest := 0;
      for i := 0 to entries.Length
        invariant oldest < LEN && (oldest == 0 || oldest < i)
        invariant forall j | 0 <= j < i :: entries[j].valid
        invariant forall j | 0 <= j < i ::
            if j < oldest then entries[oldest].expiry < entries[j].expiry
            else entries[oldest].expiry <= entries[j].expiry
      {
        if !entries[i].valid {
          assert !entries[..][i].valid;
          return i;
        }
        if entries[i].expiry < entries[oldest].expiry {
          oldest := i;
        }
      }
    }
  }

  // ---------------------------------------------------------------- histories of updates

  datatype Event = Event(ip: Addr, mac: Mac, now: int)

  ghost predicate Increasing(h: seq<Event>) {
    forall i, j | 0 <= i < j < |h| :: h[i].now < h[j].now
  }

  /** The position of the last update for ip, or -1. */
  function Last(h: seq<Event>, ip: Addr): (j: int)
    ensures -1 <= j < |h|
    ensures 0 <= j ==> h[j].ip == ip
  {
    if h == [] then -1
    else if h[|h| - 1].ip == ip then |h| - 1
    else Last(h[..|h| - 1], ip)
  }

  /** The distinct addresses updated after position j. */
  function Since(h: seq<Event>, j: int): set<Addr>
    requires -1 <= j
  {
    set i | j < i < |h| :: h[i].ip
  }

  /** es is a table the code can reach from the empty one by the updates h, in order. */
  ghost predicate Reaches(h: seq<Event>, es: seq<Entry>)
    decreases |h|
  {
    if h == [] then
      |es| == LEN && forall i | 0 <= i < LEN :: !es[i].valid
    else
      var e := h[|h| - 1];
      exists prev :: Reaches(h[..|h| - 1], prev) && IsUpdate(prev, e.ip, e.mac, e.now, es)
  }

  ghost predicate Holds(es: seq<Entry>, i: int, ip: Addr) {
    0 <= i < |es| && es[i].valid && es[i].ip == ip
  }

  /** What every reachable table satisfies. */
  ghost predicate Inv(h: seq<Event>, es: seq<Entry>) {
    && |es| == LEN
    && (forall i, j | 0 <= i < j < LEN && es[i].valid && es[j].valid :: es[i].ip != es[j].ip)
    && (forall i | 0 <= i < LEN && es[i].valid :: IsLast(h, es[i]))
    && (forall ip | Last(h, ip) >= 0 && Absent(es, ip) :: Evicted(h, es, ip))
  }

  ghost predicate Absent(es: seq<Entry>, ip: Addr) {
    forall i | 0 <= i < |es| :: !Holds(es, i, ip)
  }

  /** The entry carries the hardware address and time of the last update for its address. */
  ghost predicate IsLast(h: seq<Event>, e: Entry) {
    var j := Last(h, e.ip);
    j >= 0 && e.mac == h[j].mac && e.expiry == h[j].now + TTL
  }

  /** ip is missing only because every slot holds an address updated later. */
  ghost predicate Evicted(h: seq<Event>, es: seq<Entry>, ip: Addr) {
    forall i | 0 <= i < |es| :: es[i].valid && Last(h, es[i].ip) > Last(h, ip)
  }

  lemma {:induction false} LastIsLast(h: seq<Event>, ip: Addr)
    ensures forall i | Last(h, ip) < i < |h| :: h[i].ip != ip
  {
    if h == [] || h[|h| - 1].ip == ip {
    } else {
      LastIsLast(h[..|h| - 1], ip);
    }
  }

  lemma LastSnoc(h: seq<Event>, e: Event, ip: Addr)
    ensures Last(h + [e], ip) == if e.ip == ip then |h| else Last(h, ip)
  {
    assert (h + [e])[..|h|] == h;
  }

  lemma InvStepHit(h: seq<Event>, es: seq<Entry>, e: Event, k: nat)
    requires Inv(h, es) && k == Find(es, e.ip) && k < LEN
    ensures Inv(h + [e], es[k := Entry(e.ip, e.mac, e.now + TTL, true)])
  {
    var es', h' := es[k := Entry(e.ip, e.mac, e.now + TTL, true)], h + [e];
    forall i | 0 <= i < LEN && es'[i].valid
      ensures IsLast(h', es'[i])
    {
      LastSnoc(h, e, es'[i].ip);
    }
    forall ip | Last(h', ip) >= 0 && Absent(es', ip)
      ensures Evicted(h', es', ip)
    {
      LastSnoc(h, e, ip);
      assert !Holds(es', k, ip);
      assert Absent(es, ip) by {
        forall i | 0 <= i < |es|
          ensures !Holds(es, i, ip)
        {
          assert !Holds(es', i, ip);
        }
      }
      assert Evicted(h, es, ip);
      EvictedStep(h, es, e, k, ip);
    }
  }

  lemma EvictedStep(h: seq<Event>, es: seq<Entry>, e: Event, k: nat, ip: Addr)
    requires k < |es| && e.ip != ip
    requires forall i | 0 <= i < |es| && i != k :: es[i].valid && Last(h, es[i].ip) > Last(h, ip)
    ensures Evicted(h + [e], es[k := Entry(e.ip, e.mac, e.now + TTL, true)], ip)
  {
    var es', h' := es[k := Entry(e.ip, e.mac, e.now + TTL, true)], h + [e];
    LastSnoc(h, e, ip);
    forall i | 0 <= i < |es'|
      ensures es'[i].valid && Last(h', es'[i].ip) > Last(h', ip)
    {
      if i == k {
        LastSnoc(h, e, e.ip);
      } else {
        LastSnoc(h, e, es[i].ip);
      }
    }
  }

  lemma InvStepMiss(h: seq<Event>, es: seq<Entry>, e: Event, k: nat)
    requires Inv(h, es) && Increasing(h) && Find(es, e.ip) == LEN && IsVictim(es, k)
    ensures Inv(h + [e], es[k := Entry(e.ip, e.mac, e.now + TTL, true)])
  {
    var es', h' := es[k := Entry(e.ip, e.mac, e.now + TTL, true)], h + [e];
    forall i | 0 <= i < LEN && es'[i].valid
      ensures IsLast(h', es'[i])
    {
      LastSnoc(h, e, es'[i].ip);
    }
    forall ip | Last(h', ip) >= 0 && Absent(es', ip)
      ensures Evicted(h', es', ip)
    {
      LastSnoc(h, e, ip);
      assert !Holds(es', k, ip);
      forall i | 0 <= i < LEN && i != k
        ensures !Holds(es, i, ip)
      {
        assert !Holds(es', i, ip);
      }
      MissEvicted(h, es, k, ip);
      EvictedStep(h, es, e, k, ip);
    }
  }

  /** After a new address took slot k, an address that is absent is older than all other slots. */
  lemma MissEvicted(h: seq<Event>, es: seq<Entry>, k: nat, ip: Addr)
    requires Inv(h, es) && IsVictim(es, k) && Increasing(h) && Last(h, ip) >= 0
    requires forall i | 0 <= i < LEN && i != k :: !Holds(es, i, ip)
    ensures forall i | 0 <= i < LEN && i != k :: es[i].valid && Last(h, es[i].ip) > Last(h, ip)
  {
    if Holds(es, k, ip) {
      forall i | 0 <= i < LEN && i != k
        ensures es[i].valid && Last(h, es[i].ip) > Last(h, ip)
      {
        assert es[i].valid;
        LaterExpiry(h, es[i], es[k]);
      }
    } else {
      assert Absent(es, ip);
      assert Evicted(h, es, ip);
    }
  }

  lemma LaterExpiry(h: seq<Event>, e: Entry, older: Entry)
    requires Increasing(h) && IsLast(h, e) && IsLast(h, older) && older.expiry <= e.expiry && older.ip != e.ip
    ensures Last(h, e.ip) > Last(h, older.ip)
  {
    var i, j := Last(h, e.ip), Last(h, older.ip);
    assert i != j;
  }

  lemma InvStep(h: seq<Event>, es: seq<Entry>, e: Event, es': seq<Entry>)
    requires Inv(h, es) && Increasing(h + [e]) && IsUpdate(es, e.ip, e.mac, e.now, es')
    ensures Inv(h + [e], es')
  {
    var k := Find(es, e.ip);
    if k < |es| {
      InvStepHit(h, es, e, k);
    } else {
      var v: nat :| IsVictim(es, v) && es' == es[v := Entry(e.ip, e.mac, e.now + TTL, true)];
      assert forall i | 0 <= i < |h| :: h[i] == (h + [e])[i];
      InvStepMiss(h, es, e, v);
    }
  }

  lemma {:induction false} ReachableInv(h: seq<Event>, es: seq<Entry>)
    requires Increasing(h) && Reaches(h, es)
    ensures Inv(h, es)
    decreases |h|
  {
    if h == [] {
    } else {
      var n := |h| - 1;
      var e := h[n];
      var prev :| Reaches(h[..n], prev) && IsUpdate(prev, e.ip, e.mac, e.now, es);
      ReachableInv(h[..n], prev);
      assert h[..n] + [e] == h;
      InvStep(h[..n], prev, e, es);
    }
  }

  // ---------------------------------------------------------------- counting

  function Ips(es: seq<Entry>): set<Addr> {
    set i | 0 <= i < |es| && es[i].valid :: es[i].ip
  }

  ghost predicate AllDistinct(es: seq<Entry>) {
    && (forall i | 0 <= i < |es| :: es[i].valid)
    && (forall i, j | 0 <= i < j < |es| :: es[i].ip != es[j].ip)
  }

  lemma {:induction false} IpsCount(es: seq<Entry>)
    ensures |Ips(es)| <= |es|
    ensures AllDistinct(es) ==> |Ips(es)| == |es|
  {
    if es == [] {
      assert Ips(es) == {};
    } else {
      var n := |es| - 1;
      IpsCount(es[..n]);
      IpsStep(es, n);
      if AllDistinct(es) {
        assert AllDistinct(es[..n]);
      }
    }
  }

  lemma IpsStep(es: seq<Entry>, n: nat)
    requires n == |es| - 1
    ensures Ips(es) == Ips(es[..n]) + (if es[n].valid then {es[n].ip} else {})
    ensures AllDistinct(es) ==> es[n].ip !in Ips(es[..n]) && es[n].valid
  {
  }

  lemma SubsetCount<T>(a: set<T>, b: set<T>)
    requires a <= b
    ensures |a| <= |b|
  {
    assert b == a + (b - a);
  }

  /** Exactness: after any updates with a strictly increasing clock, the table answers for ip with
      the hardware address of its last update if and only if fewer than sixteen distinct other
      addresses were updated since; otherwise it misses. */
  lemma LruExact(h: seq<Event>, es: seq<Entry>, ip: Addr)
    requires Increasing(h) && Reaches(h, es)
    ensures var j := Last(h, ip);
            Lookup(es, ip) == if j >= 0 && |Since(h, j)| < LEN then Hit(h[j].mac) else Miss
    ensures ip !in Since(h, Last(h, ip))
    ensures |es| == LEN
    ensures forall i, j | 0 <= i < j < |es| && es[i].valid && es[j].valid :: es[i].ip != es[j].ip
  {
    hide Reaches, Last, Find;
    ReachableInv(h, es);
    LastIsLast(h, ip);
    var j, k := Last(h, ip), Find(es, ip);
    if k < LEN {
      assert IsLast(h, es[k]);
      RecentlyUpdated(h, es, ip, j);
    } else if j >= 0 {
      assert Absent(es, ip);
      assert Evicted(h, es, ip);
      forall a | a in Ips(es)
        ensures a in Since(h, j)
      {
        assert h[Last(h, a)].ip == a;
      }
      IpsCount(es);
      SubsetCount(Ips(es), Since(h, j));
    }
  }

  /** A present address has had fewer than sixteen others updated since. */
  lemma RecentlyUpdated(h: seq<Event>, es: seq<Entry>, ip: Addr, j: int)
    requires Inv(h, es) && j == Last(h, ip) >= 0 && Find(es, ip) < LEN
    ensures |Since(h, j)| < LEN
  {
    var others, k := Since(h, j), Find(es, ip);
    LastIsLast(h, ip);
    assert ip !in others;
    forall a | a in others + {ip}
      ensures a in Ips(es)
    {
      UpdatedAfter(h, j, a);
      NewerPresent(h, es, k, a);
    }
    IpsCount(es);
    SubsetCount(others + {ip}, Ips(es));
  }

  lemma UpdatedAfter(h: seq<Event>, j: nat, a: Addr)
    requires j < |h| && (a in Since(h, j) || a == h[j].ip)
    ensures Last(h, a) >= j
  {
    LastIsLast(h, a);
  }

  lemma NewerPresent(h: seq<Event>, es: seq<Entry>, k: nat, a: Addr)
    requires Inv(h, es) && k < LEN && es[k].valid && Last(h, a) >= Last(h, es[k].ip) >= 0
    ensures a in Ips(es)
  {
    assert Holds(es, k, es[k].ip) && !Evicted(h, es, a);
    ListedOrAbsent(es, a);
  }

  lemma ListedOrAbsent(es: seq<Entry>, a: Addr)
    ensures a in Ips(es) || Absent(es, a)
  {
    if a !in Ips(es) {
      forall i | 0 <= i < |es|
        ensures !Holds(es, i, a)
      {
        assert es[i].valid ==> es[i].ip in Ips(es);
      }
    }
  }

  lemma ReachesNext(h: seq<Event>, n: nat, prev: seq<Entry>, es: seq<Entry>)
    requires n < |h| && Reaches(h[..n], prev) && IsUpdate(prev, h[n].ip, h[n].mac, h[n].now, es)
    ensures Reaches(h[..n + 1], es)
  {
    var h1 := h[..n + 1];
    assert h1[..|h1| - 1] == h[..n] && h1[|h1| - 1] == h[n];
  }

  /** The table itself, driven through any history: the answer the code gives. */
  method AnswerAfter(h: seq<Event>, ip: Addr) returns (r: Answer)
    requires Increasing(h)
    ensures var j := Last(h, ip);
            r == if j >= 0 && |Since(h, j)| < LEN then Hit(h[j].mac) else Miss
  {
    var t := new ArpTable();
    for n := 0 to |h|
      invariant fresh(t.entries) && t.entries.Length == LEN
      invariant Reaches(h[..n], t.entries[..])
    {
      hide Reaches;
      ghost var prev := t.entries[..];
      t.Update(h[n].ip, h[n].mac, h[n].now);
      ReachesNext(h, n, prev, t.entries[..]);
    }
    assert h[..|h|] == h;
    r := t.Get(ip);
    LruExact(h, t.entries[..], ip);
  }
}
