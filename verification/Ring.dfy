/** The socket ring buffers: free-running 16-bit counters over a 2048-byte array (stack/socket.go).
    The receive and the transmit ring have the same code; both are instances of this class. */
module Rings {
  import opened Words

  const SIZE := 2048

  /** What a two-segment walk of n bytes from position t of a ring reads. */
  ghost function Span(b: seq<byte>, t: nat, n: nat): (s: seq<byte>)
    requires t < |b| && n <= |b|
    ensures |s| == n
  {
    if t + n <= |b| then b[t..t + n] else b[t..] + b[..t + n - |b|]
  }

  /** The ring after data was stored from position h on, wrapping at the end. */
  ghost function Overlaid(b: seq<byte>, h: nat, data: seq<byte>): (s: seq<byte>)
    requires h < |b| && |data| <= |b|
    ensures |s| == |b|
  {
    seq(|b|, p requires 0 <= p < |b| =>
      var k := if p >= h then p - h else p - h + |b|;
      if k < |data| then data[k] else b[p])
  }

  /** The position n steps behind t. */
  function Wrapped(t: nat, n: nat, size: nat): nat {
    if t + n < size then t + n else t + n - size
  }

  function Distance(head: u16, tail: u16): u16 {
    if head >= tail then head - tail else head - tail + TWO16
  }

  function Advance16(x: u16, n: nat): u16
    requires n <= SIZE
  {
    if x + n < TWO16 then x + n else x + n - TWO16
  }

  /** Go's copy into dst[at..]. */
  method CopyIn(dst: array<byte>, at: nat, src: seq<byte>)
    requires at + |src| <= dst.Length
    modifies dst
    ensures dst[..] == old(dst[..at]) + src + old(dst[at + |src|..])
  {
    forall i | 0 <= i < |src| {
      dst[at + i] := src[i];
    }
  }

  class Ring {
    const buf: array<byte>
    var head: u16
    var tail: u16

    ghost predicate Valid()
      reads this
    {
      buf.Length == SIZE && Distance(head, tail) <= SIZE
    }

    /** The bytes held, oldest first. */
    ghost function Contents(): (s: seq<byte>)
      requires Valid()
      reads this, buf
      ensures |s| == Distance(head, tail)
    {
      Span(buf[..], tail % SIZE, Distance(head, tail))
    }

    constructor ()
      ensures Valid() && Contents() == [] && fresh(buf)
    {
      buf := new byte[SIZE];
      head, tail := 0, 0;
    }

    function Available(): (n: u16)
      requires Valid()
      reads this, buf
      ensures n == |Contents()|
    {
      Distance(head, tail)
    }

    function Free(): (n: nat)
      requires Valid()
      reads this, buf
      ensures n == SIZE - |Contents()|
    {
      SIZE - Distance(head, tail)
    }

    method Write(data: seq<byte>) returns (n: nat)
      requires Valid()
      modifies this, buf
      ensures Valid()
      ensures n == Min(|data|, SIZE - |old(Contents())|)
      ensures Contents() == old(Contents()) + data[..n]
    {
      n := Min(|data|, Free());
      if n == 0 {
        return;
      }
      HeadPosition(head, tail);
      SpanWrite(buf[..], tail % SIZE, Distance(head, tail), head % SIZE, data[..n]);
      Store(head % SIZE, data[..n]);
      head := Advance16(head, n);
    }

    /** The two-segment copy of the write path. */
    method Store(h: nat, data: seq<byte>)
      requires Valid() && h < SIZE && |data| <= SIZE
      modifies buf
      ensures buf[..] == Overlaid(old(buf[..]), h, data)
    {
      var first := Min(SIZE - h, |data|);
      ghost var b := buf[..];
      CopyIn(buf, h, data[..first]);
      ghost var mid := buf[..];
      if first < |data| {
        CopyIn(buf, 0, data[first..]);
      }
      TwoSegments(b, mid, buf[..], h, data, first);
    }

    method Peek(dst: array<byte>, at: nat, max: nat) returns (n: nat)
      requires Valid() && dst != buf && at + max <= dst.Length
      modifies dst
      ensures n == Min(max, |Contents()|)
      ensures dst[..] == old(dst[..at]) + Contents()[..n] + old(dst[at + n..])
    {
      n := Min(max, Available());
      if n == 0 {
        return;
      }
      SpanPrefix(buf[..], tail % SIZE, Distance(head, tail), n);
      Fetch(tail % SIZE, n, dst, at);
    }

    /** The two-segment copy of the read path. */
    method Fetch(t: nat, n: nat, dst: array<byte>, at: nat)
      requires Valid() && dst != buf && t < SIZE && n <= SIZE && at + n <= dst.Length
      modifies dst
      ensures dst[..] == old(dst[..at]) + Span(buf[..], t, n) + old(dst[at + n..])
    {
      hide Span;
      var first := Min(SIZE - t, n);
      ghost var b, d0 := buf[..], dst[..];
      CopyIn(dst, at, buf[t..t + first]);
      ghost var d1 := dst[..];
      if first < n {
        CopyIn(dst, at + first, buf[..n - first]);
        assert buf[..] == b;
        CopiedInTwo(d0, d1, dst[..], at, b[t..t + first], b[..n - first]);
      } else {
        assert b[t..t + first] + b[..0] == b[t..t + first];
      }
      SpanParts(b, t, n);
    }

    method Advance(n: nat)
      requires Valid() && n <= |Contents()|
      modifies this`tail
      ensures Valid()
      ensures Contents() == old(Contents())[n..]
    {
      SpanDrop(buf[..], tail, Distance(head, tail), n);
      tail := Advance16(tail, n);
    }

    method Read(dst: array<byte>, at: nat, max: nat) returns (n: nat)
      requires Valid() && dst != buf && at + max <= dst.Length
      modifies dst, this`tail
      ensures Valid()
      ensures n == Min(max, |old(Contents())|)
      ensures dst[..] == old(dst[..at]) + old(Contents())[..n] + old(dst[at + n..])
      ensures Contents() == old(Contents())[n..]
    {
      n := Peek(dst, at, max);
      Advance(n);
    }

    method Reset()
      requires Valid()
      modifies this
      ensures Valid() && Contents() == []
    {
      head, tail := 0, 0;
    }
  }

  // ---------------------------------------------------------------- position lemmas

  lemma HeadPosition(head: u16, tail: u16)
    requires Distance(head, tail) <= SIZE
    ensures head % SIZE == Wrapped(tail % SIZE, Distance(head, tail), SIZE)
  {
    var qt, qh := tail / SIZE, head / SIZE;
    assert tail == qt * SIZE + tail % SIZE && head == qh * SIZE + head % SIZE;
  }

  lemma TwoSegments(b: seq<byte>, mid: seq<byte>, after: seq<byte>, h: nat, data: seq<byte>, first: nat)
    requires h < |b| && |data| <= |b| && first == Min(|b| - h, |data|)
    requires mid == b[..h] + data[..first] + b[h + first..]
    requires after == data[first..] + mid[|data| - first..]
    ensures after == Overlaid(b, h, data)
  {
    forall p | 0 <= p < |b|
      ensures after[p] == Overlaid(b, h, data)[p]
    {
      if p >= |data| - first {
        assert after[p] == mid[p];
      }
    }
  }

  /** Storing data at the head appends it to what the ring holds. */
  lemma SpanWrite(b: seq<byte>, t: nat, held: nat, h: nat, data: seq<byte>)
    requires t < |b| && h < |b| && held + |data| <= |b|
    requires h == Wrapped(t, held, |b|)
    ensures Span(Overlaid(b, h, data), t, held + |data|) == Span(b, t, held) + data
  {
    var b1 := Overlaid(b, h, data);
    forall i | 0 <= i < held + |data|
      ensures Span(b1, t, held + |data|)[i] == (Span(b, t, held) + data)[i]
    {
      SpanAt(b1, t, held + |data|, i);
      if i < held {
        SpanAt(b, t, held, i);
      }
    }
  }

  lemma SpanAt(b: seq<byte>, t: nat, n: nat, i: nat)
    requires t < |b| && i < n <= |b|
    ensures Span(b, t, n)[i] == b[Wrapped(t, i, |b|)]
  {
  }

  lemma CopiedInTwo(d0: seq<byte>, d1: seq<byte>, d2: seq<byte>, at: nat, x: seq<byte>, y: seq<byte>)
    requires at + |x| + |y| <= |d0|
    requires d1 == d0[..at] + x + d0[at + |x|..]
    requires d2 == d1[..at + |x|] + y + d1[at + |x| + |y|..]
    ensures d2 == d0[..at] + (x + y) + d0[at + |x| + |y|..]
  {
    forall i | 0 <= i < |d0|
      ensures d2[i] == (d0[..at] + (x + y) + d0[at + |x| + |y|..])[i]
    {
      if !(at + |x| <= i < at + |x| + |y|) {
        assert d2[i] == d1[i];
      }
    }
  }

  lemma SpanPrefix(b: seq<byte>, t: nat, held: nat, n: nat)
    requires t < |b| && n <= held <= |b|
    ensures Span(b, t, held)[..n] == Span(b, t, n)
  {
  }

  lemma SpanParts(b: seq<byte>, t: nat, n: nat)
    requires t < |b| && n <= |b|
    ensures var first := Min(|b| - t, n); Span(b, t, n) == b[t..t + first] + b[..n - first]
  {
  }

  /** Dropping the first n bytes moves the tail. */
  lemma SpanSuffix(b: seq<byte>, t: nat, held: nat, n: nat)
    requires t < |b| && n <= held <= |b|
    ensures Wrapped(t, n, |b|) < |b|
    ensures Span(b, Wrapped(t, n, |b|), held - n) == Span(b, t, held)[n..]
  {
    hide Span;
    var l, r := Span(b, Wrapped(t, n, |b|), held - n), Span(b, t, held)[n..];
    forall i | 0 <= i < |l|
      ensures l[i] == r[i]
    {
      SpanAt(b, Wrapped(t, n, |b|), held - n, i);
      SpanAt(b, t, held, n + i);
    }
  }

  lemma SpanDrop(b: seq<byte>, tail: u16, held: nat, n: nat)
    requires |b| == SIZE && n <= held <= SIZE
    ensures Span(b, Advance16(tail, n) % SIZE, held - n) == Span(b, tail % SIZE, held)[n..]
  {
    TailPosition(tail, n);
    SpanSuffix(b, tail % SIZE, held, n);
  }

  lemma TailPosition(tail: u16, n: nat)
    requires n <= SIZE
    ensures Advance16(tail, n) % SIZE == Wrapped(tail % SIZE, n, SIZE)
  {
    var q := tail / SIZE;
    assert tail == q * SIZE + tail % SIZE;
  }
}
