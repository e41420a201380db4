/** The rings refine an unbounded queue: every interleaving of operations appends, takes and drops. */
module Fifo {
  import opened Words
  import opened Rings

  /** The ring as an unbounded queue sees it: write appends what fits, read and advance take from the front. */
  datatype Op = Write(data: seq<byte>) | Read(max: nat) | Peek(max: nat) | Advance(n: nat)

  function Fitting(q: seq<byte>, op: Op): (s: seq<byte>)
    requires |q| <= SIZE
    ensures |q| + |s| <= SIZE
  {
    match op
    case Write(data) => data[..Min(|data|, SIZE - |q|)]
    case _ => []
  }

  function Leaving(q: seq<byte>, op: Op): (s: seq<byte>)
    ensures s <= q
  {
    match op
    case Read(max) => q[..Min(max, |q|)]
    case Advance(n) => q[..Min(n, |q|)]
    case _ => []
  }

  function Apply(q: seq<byte>, op: Op): (r: seq<byte>)
    requires |q| <= SIZE
    ensures |r| <= SIZE
  {
    (q + Fitting(q, op))[|Leaving(q, op)|..]
  }

  function Run(q: seq<byte>, ops: seq<Op>): (r: seq<byte>)
    requires |q| <= SIZE
    ensures |r| <= SIZE
    decreases |ops|
  {
    if ops == [] then q else Run(Apply(q, ops[0]), ops[1..])
  }

  function In(q: seq<byte>, ops: seq<Op>): seq<byte>
    requires |q| <= SIZE
    decreases |ops|
  {
    if ops == [] then [] else Fitting(q, ops[0]) + In(Apply(q, ops[0]), ops[1..])
  }

  function Out(q: seq<byte>, ops: seq<Op>): seq<byte>
    requires |q| <= SIZE
    decreases |ops|
  {
    if ops == [] then [] else Leaving(q, ops[0]) + Out(Apply(q, ops[0]), ops[1..])
  }

  /** One operation on a real ring is one operation on the queue, for every operation in range. */
  method Do(r: Ring, op: Op, dst: array<byte>) returns (n: nat)
    requires r.Valid() && dst != r.buf
    requires op.Read? || op.Peek? ==> op.max <= dst.Length
    requires op.Advance? ==> op.n <= |r.Contents()|
    modifies r, r.buf, dst
    ensures r.Valid() && r.Contents() == Apply(old(r.Contents()), op)
    ensures op.Write? ==> n == |Fitting(old(r.Contents()), op)|
    ensures op.Read? ==> n == |Leaving(old(r.Contents()), op)| && dst[..n] == Leaving(old(r.Contents()), op)
    ensures op.Peek? ==> n == Min(op.max, |old(r.Contents())|) && dst[..n] == old(r.Contents())[..n]
  {
    match op {
      case Write(data) => n := r.Write(data);
      case Read(max) => n := r.Read(dst, 0, max);
      case Peek(max) => n := r.Peek(dst, 0, max);
      case Advance(k) => r.Advance(k); n := k;
    }
  }

  /** Over any interleaving nothing is lost, duplicated or reordered: what was held followed by what
      went in is what came out followed by what is held. */
  lemma {:induction false} Conservation(q: seq<byte>, ops: seq<Op>)
    requires |q| <= SIZE
    ensures q + In(q, ops) == Out(q, ops) + Run(q, ops)
    decreases |ops|
  {
    if ops == [] {
      assert q + In(q, ops) == q;
    } else {
      var op, rest := ops[0], ops[1..];
      var i, o, q1 := Fitting(q, op), Leaving(q, op), Apply(q, op);
      ApplySplits(q, op);
      Conservation(q1, rest);
      calc {
        q + In(q, ops);
        q + (i + In(q1, rest));
        { Regroup(q, i, In(q1, rest)); }
        (o + q1) + In(q1, rest);
        { Regroup(o, q1, In(q1, rest)); }
        o + (Out(q1, rest) + Run(q1, rest));
        { Regroup(o, Out(q1, rest), Run(q1, rest)); }
        Out(q, ops) + Run(q, ops);
      }
    }
  }

  lemma ApplySplits(q: seq<byte>, op: Op)
    requires |q| <= SIZE
    ensures q + Fitting(q, op) == Leaving(q, op) + Apply(q, op)
  {
  }

  lemma Regroup(a: seq<byte>, b: seq<byte>, c: seq<byte>)
    ensures a + (b + c) == (a + b) + c
  {
  }
}
