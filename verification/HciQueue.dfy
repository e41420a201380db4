/** The controller-to-host ring as a queue of HCI packets: what the chip's memory must hold, and what the
    controller's append and the host's advance do to it (bluetooth.go). */
module HciQueue {
  import opened Words
  import opened Rings
  import opened ChipMemory
  import opened Backplane

  const FW_BUF := 0x1000
  const HOST_WRITE_BUF := 0
  const HOST_READ_BUF := 0x1000
  const HOST2BT_IN := 0x2000
  const BT2HOST_IN := 0x2008
  const BT2HOST_OUT := 0x200C
  const SHARED := 0x2010
  const HOST_CTRL: u32 := 0x18000d6c

  /** An HCI packet on the ring: three length bytes (not counting the type byte), type and payload, and
      whatever fills the last word. */
  datatype Frame = Frame(pkt: seq<byte>, fill: seq<byte>)

  function RoundUp4(n: nat): (r: nat)
    ensures n <= r < n + 4 && r % 4 == 0
  {
    (n + 3) / 4 * 4
  }

  predicate Framed(f: Frame) {
    0 < |f.pkt| < FW_BUF && 3 + |f.pkt| + |f.fill| == RoundUp4(3 + |f.pkt|)
  }

  function BytesOf(f: Frame): (s: seq<byte>)
    requires 0 < |f.pkt| < FW_BUF
    ensures |s| == 3 + |f.pkt| + |f.fill|
  {
    [Lo(|f.pkt| - 1), Hi(|f.pkt| - 1), 0] + f.pkt + f.fill
  }

  ghost predicate AllFramed(fs: seq<Frame>) {
    forall i | 0 <= i < |fs| :: Framed(fs[i])
  }

  ghost function Flatten(fs: seq<Frame>): seq<byte>
    requires AllFramed(fs)
  {
    if fs == [] then [] else BytesOf(fs[0]) + Flatten(fs[1..])
  }

  /** The shared area: word aligned, within memory, away from the control register and the poison's bytes. */
  ghost predicate Layout(bt: u32) {
    && bt % 4 == 0 && bt + SHARED <= TWO32
    && (bt + SHARED <= HOST_CTRL || HOST_CTRL + 4 <= bt)
    && forall a: u32 | bt <= a < bt + SHARED :: Plain(a)
  }

  ghost function RingArea(m: seq<byte>, bt: u32): (b: seq<byte>)
    requires |m| == TWO32 && bt + SHARED <= TWO32
    ensures |b| == FW_BUF
  {
    Fetch(m, bt + HOST_READ_BUF, FW_BUF)
  }

  function InPtr(m: seq<byte>, bt: u32): u32
    requires |m| == TWO32 && bt + SHARED <= TWO32
  {
    FromLe32(Fetch(m, bt + BT2HOST_IN, 4))
  }

  function Mod4096(x: u32): (n: nat)
    ensures n < FW_BUF
  {
    x % FW_BUF
  }

  /** The controller's write position in its ring, from the two low bytes of its pointer. */
  function InPos(m: seq<byte>, bt: u32): (n: nat)
    requires |m| == TWO32 && bt + SHARED <= TWO32
    ensures n < FW_BUF
  {
    var s := Fetch(m, bt + BT2HOST_IN, 4);
    (s[1] % 16) as int * 0x100 + s[0] as int
  }

  lemma InPosIs(m: seq<byte>, bt: u32)
    requires |m| == TWO32 && bt + SHARED <= TWO32
    ensures Mod4096(InPtr(m, bt)) == InPos(m, bt)
  {
    hide Fetch, Mod4096, Be32;
    var s := Fetch(m, bt + BT2HOST_IN, 4);
    LowPart(s[0], s[1], s[2], s[3]);
  }

  lemma LowPart(a: byte, b: byte, c: byte, d: byte)
    ensures Mod4096(Be32(d, c, b, a)) == (b % 16) as int * 0x100 + a as int
  {
    var q, r := (b / 16) as int + 16 * c as int + FW_BUF * d as int, (b % 16) as int * 0x100 + a as int;
    assert b == b / 16 * 16 + b % 16;
    assert Be32(d, c, b, a) == q * FW_BUF + r;
  }

  /** The ring holds exactly the frames fs from read position r on. */
  ghost predicate Holds(m: seq<byte>, bt: u32, r: nat, fs: seq<Frame>)
    requires |m| == TWO32 && bt + SHARED <= TWO32
  {
    && r < FW_BUF && AllFramed(fs) && |Flatten(fs)| < FW_BUF
    && InPos(m, bt) == Wrapped(r, |Flatten(fs)|, FW_BUF)
    && Span(RingArea(m, bt), r, |Flatten(fs)|) == Flatten(fs)
  }

  lemma {:induction false} FlattenAppend(fs: seq<Frame>, f: Frame)
    requires AllFramed(fs) && Framed(f)
    ensures AllFramed(fs + [f]) && Flatten(fs + [f]) == Flatten(fs) + BytesOf(f)
  {
    hide BytesOf;
    if fs == [] {
      assert ([f])[1..] == [] && [] + [f] == [f];
      assert Flatten([f]) == BytesOf(f) + Flatten([]);
    } else {
      FlattenAppend(fs[1..], f);
      assert (fs + [f])[1..] == fs[1..] + [f];
      assert AllFramed(fs[1..]);
    }
  }

  /** The controller puts one frame behind what is pending and moves its pointer. */
  ghost predicate Appends(m: seq<byte>, m': seq<byte>, bt: u32, f: Frame)
    requires |m| == |m'| == TWO32 && bt + SHARED <= TWO32 && 0 < |f.pkt| < FW_BUF && |BytesOf(f)| <= FW_BUF
  {
    var w := InPos(m, bt);
    && RingArea(m', bt) == Overlaid(RingArea(m, bt), w, BytesOf(f))
    && InPos(m', bt) == Wrapped(w, |BytesOf(f)|, FW_BUF)
  }

  /** As long as fewer than 4096 bytes are pending, an appended frame joins the end of the queue. */
  lemma AppendHolds(m: seq<byte>, m': seq<byte>, bt: u32, r: nat, fs: seq<Frame>, f: Frame)
    requires |m| == |m'| == TWO32 && bt + SHARED <= TWO32
    requires Holds(m, bt, r, fs) && Framed(f) && |Flatten(fs)| + |BytesOf(f)| < FW_BUF
    requires Appends(m, m', bt, f)
    ensures Holds(m', bt, r, fs + [f])
  {
    hide RingArea, InPos, Span, Overlaid, BytesOf;
    FlattenAppend(fs, f);
    SpanWrite(RingArea(m, bt), r, |Flatten(fs)|, InPos(m, bt), BytesOf(f));
    WrappedTwice(r, |Flatten(fs)|, |BytesOf(f)|, FW_BUF);
  }

  lemma WrappedTwice(t: nat, x: nat, y: nat, size: nat)
    requires t < size && x + y <= size
    ensures Wrapped(t, x, size) < size
    ensures Wrapped(Wrapped(t, x, size), y, size) == Wrapped(t, x + y, size)
  {
  }

  /** Moving the read position past the first frame leaves the rest. */
  lemma AdvanceHolds(m: seq<byte>, bt: u32, r: nat, fs: seq<Frame>)
    requires |m| == TWO32 && bt + SHARED <= TWO32 && Holds(m, bt, r, fs) && fs != []
    ensures Framed(fs[0]) && |BytesOf(fs[0])| <= FW_BUF
    ensures Holds(m, bt, Wrapped(r, |BytesOf(fs[0])|, FW_BUF), fs[1..])
    ensures Span(RingArea(m, bt), r, |BytesOf(fs[0])|) == BytesOf(fs[0])
  {
    hide RingArea, InPos, Span, BytesOf;
    var n, total := |BytesOf(fs[0])|, |Flatten(fs)|;
    assert AllFramed(fs[1..]);
    SpanSuffix(RingArea(m, bt), r, total, n);
    SpanPrefix(RingArea(m, bt), r, total, n);
    assert Flatten(fs)[n..] == Flatten(fs[1..]) && Flatten(fs)[..n] == BytesOf(fs[0]);
    WrappedTwice(r, n, total - n, FW_BUF);
  }

  /** The host-to-controller buffer. */
  ghost function HostArea(m: seq<byte>, bt: u32): (b: seq<byte>)
    requires |m| == TWO32 && bt + SHARED <= TWO32
    ensures |b| == FW_BUF
  {
    Fetch(m, bt + HOST_WRITE_BUF, FW_BUF)
  }

  lemma HostAreaWrite(m: seq<byte>, bt: u32, p: nat, data: seq<byte>)
    requires |m| == TWO32 && bt + SHARED <= TWO32 && p + |data| <= FW_BUF
    ensures HostArea(Overlay(m, bt + HOST_WRITE_BUF + p, data), bt) ==
            HostArea(m, bt)[..p] + data + HostArea(m, bt)[p + |data|..]
  {
    var m' := Overlay(m, bt + HOST_WRITE_BUF + p, data);
    forall i | 0 <= i < FW_BUF
      ensures HostArea(m', bt)[i] == if p <= i < p + |data| then data[i - p] else HostArea(m, bt)[i]
    {
      assert HostArea(m', bt)[i] == m'[bt + i] && HostArea(m, bt)[i] == m[bt + i];
    }
  }

  predicate Apart(a: u32, n: nat, b: u32, k: nat) {
    a + n <= b || b + k <= a
  }

  /** Writes outside ring and pointer leave the queue alone. */
  lemma WriteElsewhere(m: seq<byte>, bt: u32, r: nat, fs: seq<Frame>, a: u32, data: seq<byte>)
    requires |m| == TWO32 && bt + SHARED <= TWO32 && Holds(m, bt, r, fs)
    requires a + |data| <= TWO32
    requires Apart(a, |data|, bt + HOST_READ_BUF, FW_BUF) && Apart(a, |data|, bt + BT2HOST_IN, 4)
    ensures Holds(Overlay(m, a, data), bt, r, fs)
    ensures Apart(a, |data|, bt, FW_BUF) ==> HostArea(Overlay(m, a, data), bt) == HostArea(m, bt)
  {
    hide Overlay, Fetch, Span, Flatten;
    FetchOutside(m, a, data, bt + HOST_READ_BUF, FW_BUF);
    FetchOutside(m, a, data, bt + BT2HOST_IN, 4);
    if Apart(a, |data|, bt, FW_BUF) {
      FetchOutside(m, a, data, bt + HOST_WRITE_BUF, FW_BUF);
    }
  }

  /** The host control register lies outside the shared area. */
  lemma ControlElsewhere(m: seq<byte>, bt: u32, r: nat, fs: seq<Frame>, data: seq<byte>)
    requires |m| == TWO32 && Layout(bt) && |data| == 4
    ensures Holds(m, bt, r, fs) ==> Holds(Overlay(m, HOST_CTRL, data), bt, r, fs)
    ensures HostArea(Overlay(m, HOST_CTRL, data), bt) == HostArea(m, bt)
  {
    hide Overlay, Fetch, Holds;
    if Holds(m, bt, r, fs) {
      WriteElsewhere(m, bt, r, fs, HOST_CTRL, data);
    }
    FetchOutside(m, HOST_CTRL, data, bt + HOST_WRITE_BUF, FW_BUF);
  }

  /** So does the host's own pointer, from ring and host buffer. */
  lemma PointerElsewhere(m: seq<byte>, bt: u32, r: nat, fs: seq<Frame>, data: seq<byte>)
    requires |m| == TWO32 && Layout(bt) && |data| == 4
    ensures Holds(m, bt, r, fs) ==> Holds(Overlay(m, bt + HOST2BT_IN, data), bt, r, fs)
    ensures HostArea(Overlay(m, bt + HOST2BT_IN, data), bt) == HostArea(m, bt)
  {
    hide Overlay, Fetch, Holds;
    if Holds(m, bt, r, fs) {
      WriteElsewhere(m, bt, r, fs, bt + HOST2BT_IN, data);
    }
    FetchOutside(m, bt + HOST2BT_IN, data, bt + HOST_WRITE_BUF, FW_BUF);
  }

  /** Where byte i of a frame at position p of the host's buffer lands. */
  function Lands(bt: u32, p: u32, i: nat): u32
    requires i <= FW_BUF
  {
    At(At(bt, p), i)
  }

  /** A frame written at any position, which the source only ever moves up, leaves the controller's ring as it is if
      and only if each of its bytes that lands there equals what stood there; and the same for the controller's
      pointer behind the ring. */
  lemma SpillExact(m: seq<byte>, bt: u32, p: u32, bytes: seq<byte>)
    requires |m| == TWO32 && bt + SHARED <= TWO32 && |bytes| <= FW_BUF
    ensures var m', ring, ptr := Overlay(m, At(bt, p), bytes), bt + HOST_READ_BUF, bt + BT2HOST_IN;
            && (RingArea(m', bt) == RingArea(m, bt) <==>
                  forall i: nat | i < |bytes| && ring <= Lands(bt, p, i) < ring + FW_BUF ::
                    bytes[i] == m[Lands(bt, p, i)])
            && (Fetch(m', ptr, 4) == Fetch(m, ptr, 4) <==>
                  forall i: nat | i < |bytes| && ptr <= Lands(bt, p, i) < ptr + 4 :: bytes[i] == m[Lands(bt, p, i)])
  {
    hide Overlay, Fetch;
    OverlayLeaves(m, At(bt, p), bytes, bt + HOST_READ_BUF, FW_BUF);
    OverlayLeaves(m, At(bt, p), bytes, bt + BT2HOST_IN, 4);
    assert forall i: nat | i < |bytes| :: Lands(bt, p, i) == At(At(bt, p), i);
  }

  lemma RingStored(m: seq<byte>, bt: u32, w: nat, bytes: seq<byte>, first: nat)
    requires |m| == TWO32 && bt + SHARED <= TWO32 && w < FW_BUF && |bytes| <= FW_BUF
    requires first == Min(FW_BUF - w, |bytes|)
    ensures var m1 := Overlay(m, bt + HOST_READ_BUF + w, bytes[..first]);
            RingArea(Overlay(m1, bt + HOST_READ_BUF, bytes[first..]), bt) == Overlaid(RingArea(m, bt), w, bytes)
  {
    var m1 := Overlay(m, bt + HOST_READ_BUF + w, bytes[..first]);
    var m2 := Overlay(m1, bt + HOST_READ_BUF, bytes[first..]);
    var l, r := RingArea(m2, bt), Overlaid(RingArea(m, bt), w, bytes);
    forall p | 0 <= p < FW_BUF
      ensures l[p] == r[p]
    {
      var a := bt + HOST_READ_BUF + p;
      assert l[p] == m2[a] && RingArea(m, bt)[p] == m[a];
      assert m2[a] == if p < |bytes| - first then bytes[first..][p] else m1[a];
      assert m1[a] == if w <= p < w + first then bytes[..first][p - w] else m[a];
    }
  }

  lemma PointerStored(m: seq<byte>, bt: u32, v: u32)
    requires |m| == TWO32 && bt + SHARED <= TWO32 && v < FW_BUF
    ensures var m' := Overlay(m, bt + BT2HOST_IN, Le32(v));
            RingArea(m', bt) == RingArea(m, bt) && InPos(m', bt) == v
  {
    LowBytes(v);
    hide Overlay, Fetch, Le32;
    OverlayExact(m, bt + BT2HOST_IN, Le32(v));
    FetchOutside(m, bt + BT2HOST_IN, Le32(v), bt + HOST_READ_BUF, FW_BUF);
  }

  lemma LowBytes(v: u32)
    requires v < FW_BUF
    ensures Le32(v)[0] == Lo(v) && Le32(v)[1] == Hi(v) && (Hi(v) % 16) as int * 0x100 + Lo(v) as int == v
  {
    hide Be16, Be32;
    assert Upper(v) == 0 && Lower(v) == v;
    assert Hi(v) < 16 && v == Hi(v) as int * 0x100 + Lo(v) as int;
    hide Upper, Lower, Hi, Lo;
  }

  lemma LeUnique(v: u32, s: seq<byte>)
    requires |s| == 4 && Le32(v) == s
    ensures FromLe32(s) == v
  {
    assert Bytes32(v) == [s[3], s[2], s[1], s[0]];
  }

  /** What a frame's first four bytes say. */
  function PayloadLen(hdr: seq<byte>): nat
    requires |hdr| == 4
  {
    hdr[0] as int + 0x100 * hdr[1] as int + 0x1_0000 * hdr[2] as int
  }

  lemma HeaderSays(f: Frame)
    requires Framed(f)
    ensures |BytesOf(f)| >= 4 && PayloadLen(BytesOf(f)[..4]) == |f.pkt| - 1
    ensures |BytesOf(f)| == RoundUp4(PayloadLen(BytesOf(f)[..4]) + 4)
    ensures BytesOf(f)[3..3 + |f.pkt|] == f.pkt
  {
    var n: u16 := |f.pkt| - 1;
    assert Be16(Bytes16(n)[0], Bytes16(n)[1]) == n;
  }
}
