/** The chip's flat 32-bit memory, and what it means to read and write it. */
module ChipMemory {
  import opened Words

  /** Address arithmetic of Go's uint32. */
  function At(addr: u32, i: nat): u32
    requires i <= TWO32
  {
    if addr + i < TWO32 then addr + i else addr + i - TWO32
  }

  /** How far p lies behind addr, going up and around. */
  function Behind(addr: u32, p: u32): u32 {
    if p >= addr then p - addr else p - addr + TWO32
  }

  /** m with exactly the bytes from addr on replaced by data. */
  function Overlay(m: seq<byte>, addr: u32, data: seq<byte>): (r: seq<byte>)
    requires |m| == TWO32 && |data| <= TWO32
    ensures |r| == TWO32
  {
    seq(TWO32, p requires 0 <= p < TWO32 => if Behind(addr, p) < |data| then data[Behind(addr, p)] else m[p])
  }

  function Fetch(m: seq<byte>, addr: u32, n: nat): (s: seq<byte>)
    requires |m| == TWO32 && n <= TWO32
    ensures |s| == n
  {
    seq(n, i requires 0 <= i < n => m[At(addr, i)])
  }

  /** The write reads back, and leaves every other byte alone. */
  lemma OverlayExact(m: seq<byte>, addr: u32, data: seq<byte>)
    requires |m| == TWO32 && |data| <= TWO32
    ensures Fetch(Overlay(m, addr, data), addr, |data|) == data
    ensures forall p: u32 | Behind(addr, p) >= |data| :: Overlay(m, addr, data)[p] == m[p]
  {
    var r := Overlay(m, addr, data);
    forall i | 0 <= i < |data|
      ensures Fetch(r, addr, |data|)[i] == data[i]
    {
      assert Behind(addr, At(addr, i)) == if i == TWO32 then 0 else i;
    }
  }

  lemma OverlayEmpty(m: seq<byte>, addr: u32)
    requires |m| == TWO32
    ensures Overlay(m, addr, []) == m
  {
  }

  /** Consecutive writes are one write. */
  lemma OverlayConcat(m: seq<byte>, addr: u32, a: seq<byte>, b: seq<byte>)
    requires |m| == TWO32 && |a| + |b| <= TWO32
    ensures Overlay(Overlay(m, addr, a), At(addr, |a|), b) == Overlay(m, addr, a + b)
  {
    var m1 := Overlay(m, addr, a);
    var addr1 := At(addr, |a|);
    var l, r := Overlay(m1, addr1, b), Overlay(m, addr, a + b);
    forall p | 0 <= p < TWO32
      ensures l[p] == r[p]
    {
      BehindShift(addr, |a|, p);
      assert m1[p] == if Behind(addr, p) < |a| then a[Behind(addr, p)] else m[p];
    }
  }

  lemma BehindShift(addr: u32, n: nat, p: u32)
    requires n <= TWO32
    ensures Behind(addr, p) >= n ==> Behind(At(addr, n), p) == Behind(addr, p) - n
    ensures Behind(addr, p) < n ==> Behind(At(addr, n), p) == Behind(addr, p) - n + TWO32
  {
  }

  lemma FetchConcat(m: seq<byte>, addr: u32, x: nat, y: nat)
    requires |m| == TWO32 && x + y <= TWO32
    ensures Fetch(m, addr, x + y) == Fetch(m, addr, x) + Fetch(m, At(addr, x), y)
  {
  }

  lemma FetchEmpty(m: seq<byte>, addr: u32)
    requires |m| == TWO32
    ensures Fetch(m, addr, 0) == []
  {
  }

  lemma FetchPart(m: seq<byte>, addr: u32, n: nat, i: nat, j: nat)
    requires |m| == TWO32 && i <= j <= n <= TWO32
    ensures Fetch(m, addr, n)[i..j] == Fetch(m, At(addr, i), j - i)
  {
  }

  /** A write that does not reach the bytes read is not seen. */
  lemma FetchOutside(m: seq<byte>, addr: u32, data: seq<byte>, from: u32, n: nat)
    requires |m| == TWO32 && |data| <= TWO32 && n <= TWO32
    requires forall i: nat | i < n :: Behind(addr, At(from, i)) >= |data|
    ensures Fetch(Overlay(m, addr, data), from, n) == Fetch(m, from, n)
  {
  }

  /** The n bytes from an address on survive a write if and only if the write puts there what they were. */
  lemma OverlayLeaves(m: seq<byte>, addr: u32, data: seq<byte>, from: u32, n: nat)
    requires |m| == TWO32 && |data| <= TWO32 && from + n <= TWO32
    ensures Fetch(Overlay(m, addr, data), from, n) == Fetch(m, from, n) <==>
            forall i: nat | i < |data| && from <= At(addr, i) < from + n :: data[i] == m[At(addr, i)]
  {
    var r := Overlay(m, addr, data);
    var l, o := Fetch(r, from, n), Fetch(m, from, n);
    if l == o {
      forall i: nat | i < |data| && from <= At(addr, i) < from + n
        ensures data[i] == m[At(addr, i)]
      {
        var p := At(addr, i);
        assert Behind(addr, p) == i;
        assert l[p - from] == r[p] == data[i] && o[p - from] == m[p];
      }
    }
    if forall i: nat | i < |data| && from <= At(addr, i) < from + n :: data[i] == m[At(addr, i)] {
      forall k | 0 <= k < n
        ensures l[k] == o[k]
      {
        var i := Behind(addr, from + k);
        assert At(addr, i) == from + k;
        assert l[k] == r[from + k] && o[k] == m[from + k];
      }
    }
  }

  /** Writing back bytes that were there changes nothing: a padded write is the write itself. */
  lemma OverlayNeighbours(m: seq<byte>, addr: u32, head: seq<byte>, data: seq<byte>, tail: seq<byte>)
    requires |m| == TWO32 && |head| + |data| + |tail| <= TWO32
    requires head == Fetch(m, addr, |head|)
    requires tail == Fetch(m, At(addr, |head| + |data|), |tail|)
    ensures Overlay(m, addr, head + data + tail) == Overlay(m, At(addr, |head|), data)
  {
    var whole := head + data + tail;
    var l, r := Overlay(m, addr, whole), Overlay(m, At(addr, |head|), data);
    forall p | 0 <= p < TWO32
      ensures l[p] == r[p]
    {
      var k := Behind(addr, p);
      BehindShift(addr, |head|, p);
      assert At(addr, k) == p;
      if k < |head| {
        assert head[k] == m[At(addr, k)];
      } else if |head| + |data| <= k < |whole| {
        var t := k - |head| - |data|;
        assert tail[t] == m[At(At(addr, |head| + |data|), t)];
        assert At(At(addr, |head| + |data|), t) == p;
      }
    }
  }

  /** The other way round: if the padded write equals the plain one, the padding was what memory held. */
  lemma NeighboursNeeded(m: seq<byte>, addr: u32, head: seq<byte>, data: seq<byte>, tail: seq<byte>)
    requires |m| == TWO32 && |head| + |data| + |tail| <= TWO32
    requires Overlay(m, addr, head + data + tail) == Overlay(m, At(addr, |head|), data)
    ensures head == Fetch(m, addr, |head|)
    ensures tail == Fetch(m, At(addr, |head| + |data|), |tail|)
  {
    var whole := head + data + tail;
    var l, r := Overlay(m, addr, whole), Overlay(m, At(addr, |head|), data);
    forall k | 0 <= k < |whole| && !(|head| <= k < |head| + |data|)
      ensures whole[k] == m[At(addr, k)]
    {
      var p := At(addr, k);
      assert Behind(addr, p) == k;
      BehindShift(addr, |head|, p);
      assert l[p] == whole[k] && r[p] == m[p];
    }
    forall k | 0 <= k < |head|
      ensures head[k] == Fetch(m, addr, |head|)[k]
    {
      assert whole[k] == head[k];
    }
    forall t | 0 <= t < |tail|
      ensures tail[t] == Fetch(m, At(addr, |head| + |data|), |tail|)[t]
    {
      assert whole[|head| + |data| + t] == tail[t];
      assert At(At(addr, |head| + |data|), t) == At(addr, |head| + |data| + t);
    }
  }
}
