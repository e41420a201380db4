/** The DHCP server's lease table (stack/dhcpserver.go): eight slots, addresses counted up from the gateway's. */
module DhcpLease {
  import opened Words

  const MAX_LEASES := 8

  datatype Lease = Lease(mac: Mac, ip: Addr, used: bool)

  const EMPTY := Lease([0, 0, 0, 0, 0, 0], NoAddr, false)

  /** Addition on one byte of an address. */
  function AddByte(x: byte, n: nat): byte
    requires n <= MAX_LEASES
  {
    if x + n < 0x100 then x + n else x + n - 0x100
  }

  /** The address of a slot: the gateway's, its last byte moved up by the slot number and one. */
  function SlotIp(gateway: Addr, i: nat): Addr
    requires gateway.V4? && i < MAX_LEASES
  {
    gateway.(d := AddByte(AddByte(gateway.d, 1), i))
  }

  /** The first used slot with this hardware address, or |ls|. */
  function FindMac(ls: seq<Lease>, mac: Mac): (k: nat)
    ensures k <= |ls|
    ensures k < |ls| ==> ls[k].used && ls[k].mac == mac
    ensures forall i | 0 <= i < k :: !(ls[i].used && ls[i].mac == mac)
  {
    if ls == [] then 0
    else if ls[0].used && ls[0].mac == mac then 0
    else 1 + FindMac(ls[1..], mac)
  }

  function FindFree(ls: seq<Lease>): (k: nat)
    ensures k <= |ls|
    ensures k < |ls| ==> !ls[k].used
    ensures forall i | 0 <= i < k :: ls[i].used
  {
    if ls == [] then 0 else if !ls[0].used then 0 else 1 + FindFree(ls[1..])
  }

  /** The lease of a hardware address, or the invalid address. */
  function LeaseOf(ls: seq<Lease>, mac: Mac): Addr {
    if FindMac(ls, mac) < |ls| then ls[FindMac(ls, mac)].ip else NoAddr
  }

  /** The table after allocate, which gives a hardware address its old lease or the first free slot. */
  function Allocated(ls: seq<Lease>, gateway: Addr, mac: Mac): (r: seq<Lease>)
    requires gateway.V4? && |ls| == MAX_LEASES
    ensures |r| == MAX_LEASES
  {
    var k := FindFree(ls);
    if FindMac(ls, mac) < |ls| || k == |ls| then ls
    else ls[k := Lease(mac, SlotIp(gateway, k), true)]
  }

  class LeaseTable {
    const leases: array<Lease>
    var gateway: Addr

    ghost predicate Valid()
      reads this
    {
      leases.Length == MAX_LEASES
    }

    constructor ()
      ensures Valid() && gateway == NoAddr && fresh(leases)
      ensures leases[..] == seq(MAX_LEASES, _ => EMPTY)
    {
      gateway := NoAddr;
      leases := new Lease[MAX_LEASES](_ => EMPTY);
    }

    method Lookup(mac: Mac) returns (ip: Addr)
      requires Valid()
      ensures ip == LeaseOf(leases[..], mac)
    {
      for i := 0 to leases.Length
        invariant forall j | 0 <= j < i :: !(leases[j].used && leases[j].mac == mac)
      {
        if leases[i].used && leases[i].mac == mac {
          return leases[i].ip;
        }
      }
      return NoAddr;
    }

    method Allocate(mac: Mac) returns (ip: Addr)
      requires Valid() && gateway.V4?
      modifies leases
      ensures leases[..] == Allocated(old(leases[..]), gateway, mac)
      ensures ip == LeaseOf(leases[..], mac)
    {
      for i := 0 to leases.Length
        invariant forall j | 0 <= j < i :: !(leases[j].used && leases[j].mac == mac)
      {
        if leases[i].used && leases[i].mac == mac {
          return leases[i].ip;
        }
      }
      for i := 0 to leases.Length
        invariant forall j | 0 <= j < i :: leases[j].used
        invariant leases[..] == old(leases[..])
      {
        if !leases[i].used {
          ghost var before := leases[..];
          leases[i] := Lease(mac, gateway.(d := AddByte(AddByte(gateway.d, 1), i)), true);
          assert leases[..] == before[i := Lease(mac, SlotIp(gateway, i), true)];
          assert leases[..][i].used && leases[..][i].mac == mac;
          return leases[i].ip;
        }
      }
      return NoAddr;
    }
  }

  // ---------------------------------------------------------------- invariants over runs

  /** Used slots form a prefix, hold distinct hardware addresses and their own slot's address. */
  ghost predicate Tidy(ls: seq<Lease>, gateway: Addr) {
    && gateway.V4? && |ls| == MAX_LEASES
    && (forall i, j | 0 <= i < j < MAX_LEASES && ls[j].used :: ls[i].used)
    && (forall i, j | 0 <= i < j < MAX_LEASES && ls[i].used && ls[j].used :: ls[i].mac != ls[j].mac)
    && (forall i | 0 <= i < MAX_LEASES && ls[i].used :: ls[i].ip == SlotIp(gateway, i))
  }

  lemma AllocateTidy(ls: seq<Lease>, gateway: Addr, mac: Mac)
    requires Tidy(ls, gateway)
    ensures Tidy(Allocated(ls, gateway, mac), gateway)
  {
    var k := FindFree(ls);
    if FindMac(ls, mac) == |ls| && k < |ls| {
      assert forall j | k < j < |ls| :: !ls[j].used;
    }
  }

  /** A lease once given stays the same through every later allocation. */
  lemma LeaseStable(ls: seq<Lease>, gateway: Addr, mac: Mac, other: Mac)
    requires Tidy(ls, gateway) && LeaseOf(ls, mac).IsValid()
    ensures LeaseOf(Allocated(ls, gateway, other), mac) == LeaseOf(ls, mac)
  {
    var r, k := Allocated(ls, gateway, other), FindMac(ls, mac);
    AllocateTidy(ls, gateway, other);
    assert r[k] == ls[k];
    SameSlot(r, gateway, mac, k);
  }

  /** In a tidy table the slot that holds a hardware address is the one found. */
  lemma SameSlot(ls: seq<Lease>, gateway: Addr, mac: Mac, k: nat)
    requires Tidy(ls, gateway) && k < MAX_LEASES && ls[k].used && ls[k].mac == mac
    ensures FindMac(ls, mac) == k && LeaseOf(ls, mac) == SlotIp(gateway, k)
  {
  }

  lemma SlotIpsDistinct(gateway: Addr, i: nat, j: nat)
    requires gateway.V4? && i < MAX_LEASES && j < MAX_LEASES
    ensures SlotIp(gateway, i) == SlotIp(gateway, j) <==> i == j
    ensures SlotIp(gateway, i) != gateway
  {
  }

  /** The table after any sequence of allocations. */
  function AllocateAll(ls: seq<Lease>, gateway: Addr, macs: seq<Mac>): (r: seq<Lease>)
    requires gateway.V4? && |ls| == MAX_LEASES
    ensures |r| == MAX_LEASES
    decreases |macs|
  {
    if macs == [] then ls else AllocateAll(Allocated(ls, gateway, macs[0]), gateway, macs[1..])
  }

  /** Over any run: the table stays tidy and no lease changes. */
  lemma {:induction false} RunKeeps(ls: seq<Lease>, gateway: Addr, macs: seq<Mac>, mac: Mac)
    requires Tidy(ls, gateway)
    ensures Tidy(AllocateAll(ls, gateway, macs), gateway)
    ensures LeaseOf(ls, mac).IsValid() ==> LeaseOf(AllocateAll(ls, gateway, macs), mac) == LeaseOf(ls, mac)
    decreases |macs|
  {
    if macs == [] {
    } else {
      AllocateTidy(ls, gateway, macs[0]);
      if LeaseOf(ls, mac).IsValid() {
        LeaseStable(ls, gateway, mac, macs[0]);
      }
      RunKeeps(Allocated(ls, gateway, macs[0]), gateway, macs[1..], mac);
    }
  }

  /** After any run from the empty table, leases are valid addresses, one per hardware address, distinct for
      distinct ones, and never the gateway's. */
  lemma LeasesUnique(gateway: Addr, macs: seq<Mac>, m1: Mac, m2: Mac)
    requires gateway.V4?
    ensures var ls := AllocateAll(seq(MAX_LEASES, _ => EMPTY), gateway, macs);
            && Tidy(ls, gateway)
            && LeaseOf(ls, m1) != gateway
            && (LeaseOf(ls, m1).IsValid() && LeaseOf(ls, m1) == LeaseOf(ls, m2) ==> m1 == m2)
  {
    var start := seq(MAX_LEASES, _ => EMPTY);
    var ls := AllocateAll(start, gateway, macs);
    RunKeeps(start, gateway, macs, m1);
    TidyUnique(ls, gateway, m1, m2);
  }

  lemma TidyUnique(ls: seq<Lease>, gateway: Addr, m1: Mac, m2: Mac)
    requires Tidy(ls, gateway)
    ensures LeaseOf(ls, m1) != gateway
    ensures LeaseOf(ls, m1).IsValid() && LeaseOf(ls, m1) == LeaseOf(ls, m2) ==> m1 == m2
  {
    var i, j := FindMac(ls, m1), FindMac(ls, m2);
    if i < |ls| {
      SlotIpsDistinct(gateway, i, i);
      if j < |ls| {
        SlotIpsDistinct(gateway, i, j);
      }
    }
  }

  /** An allocation fails only when all eight slots hold other hardware addresses. */
  lemma AllocateSucceeds(ls: seq<Lease>, gateway: Addr, mac: Mac)
    requires Tidy(ls, gateway)
    ensures LeaseOf(Allocated(ls, gateway, mac), mac).IsValid() <==>
            LeaseOf(ls, mac).IsValid() || exists i :: 0 <= i < MAX_LEASES && !ls[i].used
  {
    var k := FindFree(ls);
    if FindMac(ls, mac) == |ls| && k < |ls| {
      AllocateTidy(ls, gateway, mac);
      SameSlot(Allocated(ls, gateway, mac), gateway, mac, k);
    }
  }
}
