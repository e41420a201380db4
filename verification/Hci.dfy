/** The host side of the HCI transport: ReadHCI and WriteHCI over windowed memory (bluetooth.go). */
module Hci {
  import opened Words
  import opened Rings
  import opened ChipMemory
  import opened Backplane
  import opened HciQueue

  const RX_BUF := 2048
  const MAX_READ := 2045
  const MAX_WRITE := 253

  datatype Error = NoError | NotEnabled | NoData | TooLarge | BusError | Panicked

  /** val XOR DATA_VALID, bit 1 */
  function ToggleValid(v: u32): u32 {
    if v / 2 % 2 == 1 then v - 2 else v + 2
  }

  const BT_CTRL: u32 := 0x18000c7c

  /** val | WAKE_BT, bit 17 */
  function WithWake(v: u32): u32 {
    if v / 0x2_0000 % 2 == 1 then v else v + 0x2_0000
  }

  /** Toggling changes bit 1 and no other; what is toggled twice is as it was. */
  lemma TogglesBit(v: u32)
    ensures var t := ToggleValid(v); t / 4 == v / 4 && t % 2 == v % 2 && t / 2 % 2 != v / 2 % 2 && ToggleValid(t) == v
  {
    var q, r := v / 4, v % 4;
    assert v == 4 * q + r && v / 2 == 2 * q + r / 2;
    var t := ToggleValid(v);
    assert t == 4 * q + if r < 2 then r + 2 else r - 2;
    assert t / 2 == 2 * q + if r < 2 then 1 else 0;
  }

  /** Waking sets bit 17 and changes no other. */
  lemma SetsBit(v: u32)
    ensures var w := WithWake(v);
            w / 0x4_0000 == v / 0x4_0000 && w % 0x2_0000 == v % 0x2_0000 && w / 0x2_0000 % 2 == 1
  {
    var q, b, r := v / 0x4_0000, v / 0x2_0000 % 2, v % 0x2_0000;
    AboveBit17(v / 0x2_0000, r);
    assert v == 0x4_0000 * q + 0x2_0000 * b + r;
    AboveBit17(2 * q + 1, r);
    assert WithWake(v) == 0x2_0000 * (2 * q + 1) + r;
  }

  lemma AboveBit17(h: nat, r: nat)
    requires r < 0x2_0000
    ensures var v := 0x2_0000 * h + r; v / 0x2_0000 == h && v % 0x2_0000 == r && v / 0x4_0000 == h / 2
  {
  }

  /** val & BT_AWAKE, bit 8 */
  predicate AwakeBit(v: u32) {
    v / 0x100 % 2 == 1
  }

  /** Memory after the wake-up bit was set in the host control register. */
  function AfterWake(m: seq<byte>): (r: seq<byte>)
    requires |m| == TWO32
    ensures |r| == TWO32
  {
    Overlay(m, HOST_CTRL, Le32(WithWake(FromLe32(Fetch(m, HOST_CTRL, 4)))))
  }

  /** Memory after the data bit was toggled there. */
  function AfterToggle(m: seq<byte>): (r: seq<byte>)
    requires |m| == TWO32
    ensures |r| == TWO32
  {
    Overlay(m, HOST_CTRL, Le32(ToggleValid(FromLe32(Fetch(m, HOST_CTRL, 4)))))
  }

  /** Memory after a frame went to position p of the host's buffer and the pointer behind it was published. */
  function AfterFrame(m: seq<byte>, bt: u32, p: u32, bytes: seq<byte>): (r: seq<byte>)
    requires |m| == TWO32 && |bytes| <= FW_BUF && bt + SHARED <= TWO32
    ensures |r| == TWO32
  {
    Overlay(Overlay(m, At(bt, p), bytes), bt + HOST2BT_IN, Le32(Add32(p, |bytes|)))
  }

  class Bluetooth {
    const d: Device
    const rxBuf: array<byte>
    var btEnabled: bool
    var btaddr: u32
    var b2hReadPtr: u32
    var h2bWritePtr: u32

    ghost predicate Valid()
      reads this, d, d.chip
    {
      && d.Valid() && rxBuf.Length == RX_BUF && rxBuf != d.iovarBuf
      && b2hReadPtr < FW_BUF && Layout(btaddr)
    }

    constructor (dev: Device, base: u32)
      requires dev.Valid() && Layout(base)
      ensures Valid() && d == dev && btaddr == base && btEnabled && b2hReadPtr == 0 && h2bWritePtr == 0
      ensures fresh(rxBuf)
    {
      d := dev;
      rxBuf := new byte[RX_BUF];
      btEnabled, btaddr, b2hReadPtr, h2bWritePtr := true, base, 0, 0;
    }

    method Available() returns (ok: bool, n: nat)
      requires Valid()
      modifies d`backplaneWindow, d`faults, d.chip`hi, d.chip`mid, d.chip`lo
      ensures Valid()
      ensures ok ==> n == Mod4096(Minus(InPtr(d.chip.mem, btaddr), b2hReadPtr))
      ensures old(d.Faultless()) ==> ok && d.Faultless()
    {
      hide Plain, Fetch, Le32, FromLe32, Mod4096;
      var writePtr;
      ok, writePtr := d.Read32(btaddr + BT2HOST_IN);
      if ok {
        LeUnique(writePtr, Fetch(d.chip.mem, btaddr + BT2HOST_IN, 4));
      }
      n := Mod4096(Minus(writePtr, b2hReadPtr));
    }

    /** Reads from the ring without advancing; in two pieces when the ring wraps. */
    method RawRead(dst: array<byte>, len: nat) returns (ok: bool)
      requires Valid() && len <= dst.Length && len <= FW_BUF
      modifies d`backplaneWindow, d`faults, d.chip`hi, d.chip`mid, d.chip`lo, dst
      ensures Valid()
      ensures ok ==> dst[..len] == Span(RingArea(d.chip.mem, btaddr), b2hReadPtr, len)
      ensures old(d.Faultless()) ==> ok && d.Faultless()
    {
      hide Plain, Fetch, Span;
      ghost var m := d.chip.mem;
      var r := b2hReadPtr;
      var addr := btaddr + HOST_READ_BUF + r;
      if r + len > FW_BUF {
        var n := FW_BUF - r;
        ok := d.BpRead(addr, dst, 0, n);
        if !ok {
          return;
        }
        ghost var first := dst[..n];
        ok := d.BpRead(btaddr + HOST_READ_BUF, dst, n, len - n);
        assert dst[..n] == first;
        assert dst[..len] == dst[..n] + dst[n..len];
        RingPieces(m, btaddr, r, len);
      } else {
        ok := d.BpRead(addr, dst, 0, len);
        RingPieces(m, btaddr, r, len);
      }
    }

    /** Reads and advances; the read pointer moves only when the chip was told. */
    method ReadRingbuf(len: nat, ghost fs: seq<Frame>) returns (ok: bool)
      requires Valid() && fs != [] && Holds(d.chip.mem, btaddr, b2hReadPtr, fs)
      requires len == |BytesOf(fs[0])| <= RX_BUF
      modifies this`b2hReadPtr, d`backplaneWindow, d`faults, d.chip, rxBuf
      ensures Valid()
      ensures ok ==> rxBuf[..len] == BytesOf(fs[0]) && Holds(d.chip.mem, btaddr, b2hReadPtr, fs[1..])
      ensures !ok ==> b2hReadPtr == old(b2hReadPtr) && Holds(d.chip.mem, btaddr, b2hReadPtr, fs)
      ensures old(d.Faultless()) ==> ok && d.Faultless()
    {
      hide Plain, Holds, Span, BytesOf, Flatten, Le32, Overlay, Fetch, RoundUp4;
      ok := RawRead(rxBuf, len);
      if !ok {
        return;
      }
      AdvanceHolds(d.chip.mem, btaddr, b2hReadPtr, fs);
      WrappedMod(b2hReadPtr, len);
      var newPtr := (b2hReadPtr + len) % FW_BUF;
      ghost var m := d.chip.mem;
      ok := d.Write32(btaddr + BT2HOST_OUT, newPtr);
      if !ok {
        return;
      }
      WriteElsewhere(m, btaddr, newPtr, fs[1..], btaddr + BT2HOST_OUT, Le32(newPtr));
      b2hReadPtr := newPtr;
    }

    /** Tells the controller; the register lies outside the shared area. */
    method ToggleIntr(ghost r: nat, ghost fs: seq<Frame>) returns (ok: bool)
      requires Valid()
      modifies d`backplaneWindow, d`faults, d.chip
      ensures ok ==> d.chip.mem == AfterToggle(old(d.chip.mem))
      ensures Valid() && (old(Holds(d.chip.mem, btaddr, r, fs)) ==> Holds(d.chip.mem, btaddr, r, fs))
      ensures HostArea(d.chip.mem, btaddr) == old(HostArea(d.chip.mem, btaddr))
      ensures old(d.Faultless()) ==> ok && d.Faultless()
    {
      hide Holds;
      PlainControl();
      var val;
      ok, val := d.Read32(HOST_CTRL);
      if !ok {
        return;
      }
      ghost var m := d.chip.mem;
      ok := d.Write32(HOST_CTRL, ToggleValid(val));
      if ok {
        LeUnique(val, Fetch(m, HOST_CTRL, 4));
        ControlElsewhere(m, btaddr, r, fs, Le32(ToggleValid(val)));
      }
    }

    /** b[..n] is the oldest packet of fs, and the ring holds the others. */
    ghost predicate Took(b: array<byte>, n: nat, fs: seq<Frame>)
      requires Valid()
      reads this, d, d.chip, b
    {
      fs != [] && n == |fs[0].pkt| <= b.Length && b[..n] == fs[0].pkt
      && Holds(d.chip.mem, btaddr, b2hReadPtr, fs[1..])
    }

    /** Returns the oldest pending packet and drops it; too small a buffer drops nothing, and a packet the receive
        buffer cannot take panics before anything is read. Whatever register writes fail, the ring still holds all
        pending packets, or all but the one just taken. */
    method ReadHCI(b: array<byte>, ghost fs: seq<Frame>) returns (n: nat, err: Error)
      requires Valid() && b != rxBuf && b != d.iovarBuf
      requires Holds(d.chip.mem, btaddr, b2hReadPtr, fs)
      modifies this`b2hReadPtr, d`backplaneWindow, d`faults, d.chip, rxBuf, b
      ensures Valid()
      ensures err == NotEnabled <==> !btEnabled
      ensures Holds(d.chip.mem, btaddr, b2hReadPtr, fs) || Took(b, n, fs)
      ensures err in {NotEnabled, NoData, TooLarge, Panicked} ==>
                b2hReadPtr == old(b2hReadPtr) && d.chip.mem == old(d.chip.mem)
      ensures err == NoError ==> Took(b, n, fs)
      ensures btEnabled && old(d.Faultless()) ==>
                d.Faultless()
                && err == if fs == [] then NoData
                          else if |fs[0].pkt| > b.Length then TooLarge
                          else if |fs[0].pkt| > MAX_READ then Panicked
                          else NoError
    {
      hide Plain, Holds, BytesOf, Flatten, Span, RoundUp4, Mod4096, Took;
      if !btEnabled {
        return 0, NotEnabled;
      }
      var ok, available := Available();
      if !ok {
        return 0, BusError;
      }
      PendingCount(d.chip.mem, btaddr, b2hReadPtr, fs);
      if available < 4 {
        return 0, NoData;
      }
      var payloadLen;
      ok, payloadLen := PeekHeader(fs);
      if !ok {
        return 0, BusError;
      }
      if payloadLen + 1 > b.Length {
        return 0, TooLarge;
      }
      if RoundUp4(payloadLen + 4) > RX_BUF {
        FrameFits(payloadLen);
        return 0, Panicked;
      }
      var taken;
      FrameFits(payloadLen);
      taken, ok := TakePacket(b, payloadLen, fs);
      n := if taken then payloadLen + 1 else 0;
      err := if ok then NoError else BusError;
    }

    /** The length field of the oldest pending frame. */
    method PeekHeader(ghost fs: seq<Frame>) returns (ok: bool, payloadLen: nat)
      requires Valid() && fs != [] && Holds(d.chip.mem, btaddr, b2hReadPtr, fs)
      modifies d`backplaneWindow, d`faults, d.chip`hi, d.chip`mid, d.chip`lo
      ensures Valid() && Framed(fs[0])
      ensures ok ==> payloadLen == |fs[0].pkt| - 1
      ensures old(d.Faultless()) ==> ok && d.Faultless()
    {
      hide Plain, Holds, BytesOf, Flatten, Span, RoundUp4;
      AdvanceHolds(d.chip.mem, btaddr, b2hReadPtr, fs);
      HeaderSays(fs[0]);
      var hdr := new byte[4];
      ok := RawRead(hdr, 4);
      SpanPrefix(RingArea(d.chip.mem, btaddr), b2hReadPtr, |BytesOf(fs[0])|, 4);
      assert hdr[..4] == hdr[..];
      payloadLen := PayloadLen(hdr[..]);
    }

    /** Consumes the oldest frame and copies its packet out, header stripped. */
    method TakePacket(b: array<byte>, payloadLen: nat, ghost fs: seq<Frame>) returns (taken: bool, ok: bool)
      requires Valid() && fs != [] && Holds(d.chip.mem, btaddr, b2hReadPtr, fs)
      requires b != rxBuf && Framed(fs[0]) && payloadLen == |fs[0].pkt| - 1 < b.Length && payloadLen < MAX_READ
      modifies this`b2hReadPtr, d`backplaneWindow, d`faults, d.chip, rxBuf, b
      ensures Valid()
      ensures taken ==> Took(b, payloadLen + 1, fs)
      ensures !taken ==> Holds(d.chip.mem, btaddr, b2hReadPtr, fs)
      ensures ok ==> taken
      ensures old(d.Faultless()) ==> ok && d.Faultless()
    {
      hide Plain, Holds, BytesOf, Flatten, Span, RoundUp4;
      HeaderSays(fs[0]);
      FrameFits(payloadLen);
      var hciLen := payloadLen + 1;
      var roundedLen := RoundUp4(payloadLen + 4);
      ok := ReadRingbuf(roundedLen, fs);
      taken := ok;
      if !ok {
        return;
      }
      assert rxBuf[..roundedLen][3..3 + hciLen] == rxBuf[3..3 + hciLen];
      CopyIn(b, 0, rxBuf[3..3 + hciLen]);
      assert b[..hciLen] == fs[0].pkt;
      ok := ToggleIntr(b2hReadPtr, fs[1..]);
    }

    /** Reads val|WAKE_BT back into the host control register. */
    method SetAwake(ghost r: nat, ghost fs: seq<Frame>) returns (ok: bool)
      requires Valid()
      modifies d`backplaneWindow, d`faults, d.chip
      ensures ok ==> d.chip.mem == AfterWake(old(d.chip.mem))
      ensures Valid() && (old(Holds(d.chip.mem, btaddr, r, fs)) ==> Holds(d.chip.mem, btaddr, r, fs))
      ensures HostArea(d.chip.mem, btaddr) == old(HostArea(d.chip.mem, btaddr))
      ensures old(d.Faultless()) ==> ok && d.Faultless()
    {
      hide Holds, Overlay;
      PlainControl();
      var val;
      ok, val := d.Read32(HOST_CTRL);
      if !ok {
        return;
      }
      ghost var m := d.chip.mem;
      ok := d.Write32(HOST_CTRL, WithWake(val));
      if ok {
        LeUnique(val, Fetch(m, HOST_CTRL, 4));
        ControlElsewhere(m, btaddr, r, fs, Le32(WithWake(val)));
      }
    }

    /** Polls the controller's register, at most 78 times, for the awake bit. */
    method WaitAwake() returns (ok: bool)
      requires Valid()
      modifies d`backplaneWindow, d`faults, d.chip`hi, d.chip`mid, d.chip`lo
      ensures Valid()
      ensures ok ==> d.backplaneWindow != POISON
      ensures old(d.Faultless()) ==> d.Faultless()
      ensures old(d.Faultless()) && AwakeBit(FromLe32(Fetch(d.chip.mem, BT_CTRL, 4))) ==> ok
    {
      PlainControl();
      for i := 0 to 300 / 4 + 3
        invariant Valid() && (old(d.Faultless()) ==> d.Faultless())
        invariant old(d.Faultless()) && AwakeBit(FromLe32(Fetch(d.chip.mem, BT_CTRL, 4))) ==> i == 0
      {
        var there, val := d.Read32(BT_CTRL);
        if !there {
          return false;
        }
        LeUnique(val, Fetch(d.chip.mem, BT_CTRL, 4));
        if AwakeBit(val) {
          return true;
        }
      }
      return false;
    }

    /** The frame at the front of the scratch buffer: length without the type byte, the packet, and whatever
        the buffer held up to the next word. */
    method BuildFrame(b: seq<byte>) returns (alignBufLen: nat, ghost f: Frame)
      requires Valid() && 0 < |b| <= MAX_WRITE
      modifies d.iovarBuf
      ensures Framed(f) && f.pkt == b && alignBufLen == |BytesOf(f)| <= 256
      ensures d.iovarBuf[..alignBufLen] == BytesOf(f)
    {
      var payloadLen := |b| - 1;
      alignBufLen := RoundUp4(payloadLen + 4);
      CopyIn(d.iovarBuf, 0, [Lo(payloadLen), Hi(payloadLen), 0]);
      assert d.iovarBuf[..3] == [Lo(payloadLen), Hi(payloadLen), 0];
      CopyIn(d.iovarBuf, 3, b);
      f := Frame(b, d.iovarBuf[3 + |b|..alignBufLen]);
      assert d.iovarBuf[..alignBufLen] == d.iovarBuf[..3] + d.iovarBuf[3..3 + |b|] + d.iovarBuf[3 + |b|..alignBufLen];
    }

    /** Writes the frame behind what was written before and tells the controller: memory changes by the frame, the
        pointer and the two bits of the control register, and by nothing else. As long as the frame ends within the
        host's buffer, its bytes stand there as ReadHCI decodes them and the ring is untouched; the source never moves
        the write pointer back (SpillExact). */
    method WriteHCI(b: seq<byte>, ghost fs: seq<Frame>) returns (n: nat, err: Error, ghost f: Frame)
      requires Valid()
      modifies this`h2bWritePtr, d`backplaneWindow, d`faults, d.chip, d.iovarBuf
      ensures Valid()
      ensures err == NotEnabled <==> !btEnabled
      ensures err == TooLarge <==> btEnabled && !(0 < |b| <= MAX_WRITE)
      ensures err in {NotEnabled, TooLarge} ==> d.chip.mem == old(d.chip.mem) && h2bWritePtr == old(h2bWritePtr)
      ensures err in {NoError, NotEnabled, TooLarge, BusError}
      ensures err == NoError ==>
                && n == |b| && Framed(f) && f.pkt == b && |BytesOf(f)| <= 256
                && h2bWritePtr == Add32(old(h2bWritePtr), |BytesOf(f)|)
                && d.chip.mem ==
                   AfterToggle(AfterFrame(AfterWake(old(d.chip.mem)), btaddr, old(h2bWritePtr), BytesOf(f)))
      ensures old(h2bWritePtr) + RoundUp4(|b| + 3) <= FW_BUF ==>
                && (old(Holds(d.chip.mem, btaddr, b2hReadPtr, fs)) ==> Holds(d.chip.mem, btaddr, b2hReadPtr, fs))
                && (err == NoError ==> Sent(f, old(h2bWritePtr), old(HostArea(d.chip.mem, btaddr))))
    {
      hide Holds, Sent, AfterWake, AfterFrame, AfterToggle;
      f := Frame([0], []);
      if !btEnabled {
        return 0, NotEnabled, f;
      }
      if |b| < 1 || |b| > MAX_WRITE {
        return 0, TooLarge, f;
      }
      var alignBufLen;
      alignBufLen, f := BuildFrame(b);
      n, err := SendFrame(alignBufLen, |b|, f, fs);
    }

    method SendFrame(alignBufLen: nat, len: nat, ghost f: Frame, ghost fs: seq<Frame>)
      returns (n: nat, err: Error)
      requires Valid() && Framed(f) && len == |f.pkt| && alignBufLen == |BytesOf(f)| <= 256
      requires d.iovarBuf[..alignBufLen] == BytesOf(f)
      modifies this`h2bWritePtr, d`backplaneWindow, d`faults, d.chip, d.iovarBuf
      ensures Valid()
      ensures err in {NoError, BusError}
      ensures err == NoError ==>
                && n == |f.pkt| && h2bWritePtr == Add32(old(h2bWritePtr), alignBufLen)
                && d.chip.mem ==
                   AfterToggle(AfterFrame(AfterWake(old(d.chip.mem)), btaddr, old(h2bWritePtr), BytesOf(f)))
      ensures old(h2bWritePtr) + alignBufLen <= FW_BUF ==>
                && (old(Holds(d.chip.mem, btaddr, b2hReadPtr, fs)) ==> Holds(d.chip.mem, btaddr, b2hReadPtr, fs))
                && (err == NoError ==> Sent(f, old(h2bWritePtr), old(HostArea(d.chip.mem, btaddr))))
    {
      hide Holds, Overlay, BytesOf, Plain, AfterWake, AfterFrame, AfterToggle, HostArea;
      n, err := 0, BusError;
      var ok := SetAwake(b2hReadPtr, fs);
      if !ok {
        return;
      }
      ok := WaitAwake();
      if !ok {
        return;
      }
      ok := PutFrame(alignBufLen, BytesOf(f), fs);
      if !ok {
        return;
      }
      n := len;
      ok := ToggleIntr(b2hReadPtr, fs);
      err := if ok then NoError else BusError;
    }

    /** The frame, and then the pointer behind it. */
    method PutFrame(len: nat, ghost bytes: seq<byte>, ghost fs: seq<Frame>) returns (ok: bool)
      requires Valid() && d.backplaneWindow != POISON && 0 < len == |bytes| <= 256 && d.iovarBuf[..len] == bytes
      modifies this`h2bWritePtr, d`backplaneWindow, d`faults, d.chip, d.iovarBuf
      ensures Valid()
      ensures ok ==> h2bWritePtr == Add32(old(h2bWritePtr), len)
      ensures ok ==> d.chip.mem == AfterFrame(old(d.chip.mem), btaddr, old(h2bWritePtr), bytes)
      ensures old(h2bWritePtr) + len <= FW_BUF ==>
                && (old(Holds(d.chip.mem, btaddr, b2hReadPtr, fs)) ==> Holds(d.chip.mem, btaddr, b2hReadPtr, fs))
                && (ok ==> HostArea(d.chip.mem, btaddr) ==
                           old(HostArea(d.chip.mem, btaddr))[..old(h2bWritePtr)] + bytes
                           + old(HostArea(d.chip.mem, btaddr))[old(h2bWritePtr) + len..])
    {
      hide Holds, Overlay, Plain, HostArea;
      ok := PutBytes(len, bytes, fs);
      if !ok {
        return;
      }
      h2bWritePtr := Add32(h2bWritePtr, len);
      ok := PutPointer(fs);
    }

    /** The frame's bytes go into memory at the write pointer, out of the scratch buffer. */
    method PutBytes(len: nat, ghost bytes: seq<byte>, ghost fs: seq<Frame>) returns (ok: bool)
      requires Valid() && d.backplaneWindow != POISON && 0 < len == |bytes| <= 256 && d.iovarBuf[..len] == bytes
      modifies d`backplaneWindow, d`faults, d.chip, d.iovarBuf
      ensures Valid() && (ok ==> d.backplaneWindow != POISON)
      ensures ok ==> d.chip.mem == Overlay(old(d.chip.mem), At(btaddr, h2bWritePtr), bytes)
      ensures h2bWritePtr + len <= FW_BUF ==>
                && (old(Holds(d.chip.mem, btaddr, b2hReadPtr, fs)) ==> Holds(d.chip.mem, btaddr, b2hReadPtr, fs))
                && (ok ==> HostArea(d.chip.mem, btaddr) ==
                           old(HostArea(d.chip.mem, btaddr))[..h2bWritePtr] + bytes
                           + old(HostArea(d.chip.mem, btaddr))[h2bWritePtr + len..])
    {
      hide Holds, Overlay, Plain;
      ghost var m, done := d.chip.mem, 0;
      var addr := At(btaddr, h2bWritePtr);
      ok, done := d.BpWrite(addr, d.iovarBuf, 0, len);
      assert ok ==> bytes[..done] == bytes;
      if h2bWritePtr + len <= FW_BUF {
        if Holds(m, btaddr, b2hReadPtr, fs) {
          WriteElsewhere(m, btaddr, b2hReadPtr, fs, addr, bytes[..done]);
        }
        if ok {
          HostAreaWrite(m, btaddr, h2bWritePtr, bytes);
        }
      }
    }

    method PutPointer(ghost fs: seq<Frame>) returns (ok: bool)
      requires Valid() && d.backplaneWindow != POISON
      modifies d`backplaneWindow, d`faults, d.chip
      ensures Valid()
      ensures ok ==> d.chip.mem == Overlay(old(d.chip.mem), btaddr + HOST2BT_IN, Le32(h2bWritePtr))
      ensures old(Holds(d.chip.mem, btaddr, b2hReadPtr, fs)) ==> Holds(d.chip.mem, btaddr, b2hReadPtr, fs)
      ensures HostArea(d.chip.mem, btaddr) == old(HostArea(d.chip.mem, btaddr))
    {
      hide Holds, Overlay, Plain, Le32;
      ghost var m := d.chip.mem;
      ok := d.Write32(btaddr + HOST2BT_IN, h2bWritePtr);
      if ok {
        PointerElsewhere(m, btaddr, b2hReadPtr, fs, Le32(h2bWritePtr));
      }
    }

    /** The host buffer is as before except for the frame's bytes at p, and the write pointer stands behind. */
    ghost predicate Sent(f: Frame, p: nat, area: seq<byte>)
      requires Valid() && Framed(f) && |area| == FW_BUF
      reads this, d, d.chip
    {
      && p + |BytesOf(f)| <= FW_BUF && h2bWritePtr == p + |BytesOf(f)|
      && HostArea(d.chip.mem, btaddr) == area[..p] + BytesOf(f) + area[p + |BytesOf(f)|..]
    }
  }

  /** What happens to the ring: the controller appends a frame, or the host reads into a buffer. */
  datatype Op = Deliver(f: Frame) | Receive(size: nat)

  /** The controller's append in memory: the frame in one or two pieces, then the pointer. */
  method PutFrame(bt: Bluetooth, f: Frame)
    requires bt.Valid() && Framed(f) && |BytesOf(f)| <= FW_BUF
    modifies bt.d.chip`mem
    ensures bt.Valid() && Appends(old(bt.d.chip.mem), bt.d.chip.mem, bt.btaddr, f)
  {
    hide BytesOf, InPos, Overlay, RingArea, Le32;
    var m, at := bt.d.chip.mem, bt.btaddr;
    var w, bytes := InPos(m, at), BytesOf(f);
    var first := Min(FW_BUF - w, |bytes|);
    var m1 := Overlay(m, at + HOST_READ_BUF + w, bytes[..first]);
    var m2 := Overlay(m1, at + HOST_READ_BUF, bytes[first..]);
    RingStored(m, at, w, bytes, first);
    PointerStored(m2, at, Wrapped(w, |bytes|, FW_BUF));
    bt.d.chip.mem := Overlay(m2, at + BT2HOST_IN, Le32(Wrapped(w, |bytes|, FW_BUF)));
  }

  /** The controller appends only while fewer than 4096 bytes stay pending. */
  method ControllerAppend(bt: Bluetooth, f: Frame, ghost fs: seq<Frame>) returns (done: bool)
    requires bt.Valid() && Holds(bt.d.chip.mem, bt.btaddr, bt.b2hReadPtr, fs)
    modifies bt.d.chip`mem
    ensures bt.Valid()
    ensures Holds(bt.d.chip.mem, bt.btaddr, bt.b2hReadPtr, if done then fs + [f] else fs)
    ensures done <==> Framed(f) && |Flatten(fs)| + |BytesOf(f)| < FW_BUF
  {
    hide Holds, Flatten, BytesOf, InPtr, Mod4096, Appends;
    var m, r := bt.d.chip.mem, bt.b2hReadPtr;
    PendingCount(m, bt.btaddr, r, fs);
    done := Framed(f) && Mod4096(Minus(InPtr(m, bt.btaddr), r)) + |BytesOf(f)| < FW_BUF;
    if done {
      PutFrame(bt, f);
      AppendHolds(m, bt.d.chip.mem, bt.btaddr, r, fs, f);
    }
  }

  /** Over any number of wraps, the packets read are the packets appended, in order and one by one. */
  method Drive(bt: Bluetooth, ops: seq<Op>) returns (out: seq<seq<byte>>, ghost appended: seq<Frame>)
    requires bt.Valid() && bt.btEnabled && bt.d.Faultless()
    requires Holds(bt.d.chip.mem, bt.btaddr, bt.b2hReadPtr, [])
    modifies bt`b2hReadPtr, bt.d`backplaneWindow, bt.d`faults, bt.d.chip, bt.rxBuf
    ensures bt.Valid() && |out| <= |appended|
    ensures forall i | 0 <= i < |out| :: out[i] == appended[i].pkt
    ensures Holds(bt.d.chip.mem, bt.btaddr, bt.b2hReadPtr, appended[|out|..])
  {
    hide Holds, Flatten, BytesOf;
    out, appended := [], [];
    for k := 0 to |ops|
      invariant bt.Valid() && bt.btEnabled && bt.d.Faultless() && |out| <= |appended|
      invariant forall i | 0 <= i < |out| :: out[i] == appended[i].pkt
      invariant Holds(bt.d.chip.mem, bt.btaddr, bt.b2hReadPtr, appended[|out|..])
    {
      match ops[k] {
        case Deliver(f) =>
          var done := ControllerAppend(bt, f, appended[|out|..]);
          if done {
            assert (appended + [f])[|out|..] == appended[|out|..] + [f];
            appended := appended + [f];
          }
        case Receive(size) =>
          var b := new byte[size];
          var n, err := bt.ReadHCI(b, appended[|out|..]);
          if err == NoError {
            assert appended[|out|..][1..] == appended[|out| + 1..];
            out := out + [b[..n]];
          }
      }
    }
  }

  /** A frame fits the receive buffer exactly if its packet has at most 2045 bytes. */
  lemma FrameFits(payloadLen: nat)
    ensures RoundUp4(payloadLen + 4) <= RX_BUF <==> payloadLen < MAX_READ
  {
  }

  function Minus(x: u32, y: u32): u32 {
    if x >= y then x - y else x - y + TWO32
  }

  lemma PlainControl()
    ensures Plain(HOST_CTRL) && HOST_CTRL % 4 == 0
    ensures Plain(BT_CTRL) && BT_CTRL % 4 == 0
  {
    Halves(0x1800, 0x0d6c);
    Halves(0x1800, 0x0c7c);
    assert HOST_CTRL == 0x1800 * TWO16 + 0x0d6c && BT_CTRL == 0x1800 * TWO16 + 0x0c7c;
  }

  lemma WrappedMod(r: nat, n: nat)
    requires r < FW_BUF && n <= FW_BUF
    ensures (r + n) % FW_BUF == Wrapped(r, n, FW_BUF)
  {
  }

  /** A walk of the ring is one or two runs of memory. */
  lemma RingPieces(m: seq<byte>, bt: u32, r: nat, len: nat)
    requires |m| == TWO32 && bt + SHARED <= TWO32 && r < FW_BUF && len <= FW_BUF
    ensures r + len <= FW_BUF ==> Span(RingArea(m, bt), r, len) == Fetch(m, bt + HOST_READ_BUF + r, len)
    ensures r + len > FW_BUF ==>
              Span(RingArea(m, bt), r, len) ==
              Fetch(m, bt + HOST_READ_BUF + r, FW_BUF - r) + Fetch(m, bt + HOST_READ_BUF, r + len - FW_BUF)
  {
    hide Fetch;
    var at := bt + HOST_READ_BUF;
    if r + len <= FW_BUF {
      FetchPart(m, at, FW_BUF, r, r + len);
    } else {
      var b, k := Fetch(m, at, FW_BUF), r + len - FW_BUF;
      FetchPart(m, at, FW_BUF, r, FW_BUF);
      FetchPart(m, at, FW_BUF, 0, k);
      assert b[r..] == b[r..FW_BUF] && b[..k] == b[0..k];
    }
  }

  /** The pointer difference modulo 4096 is the number of pending bytes; it is zero exactly for no frame. */
  lemma PendingCount(m: seq<byte>, bt: u32, r: nat, fs: seq<Frame>)
    requires |m| == TWO32 && bt + SHARED <= TWO32 && Holds(m, bt, r, fs)
    ensures Mod4096(Minus(InPtr(m, bt), r)) == |Flatten(fs)|
    ensures fs == [] ==> |Flatten(fs)| == 0
    ensures fs != [] ==> |Flatten(fs)| >= 4
  {
    InPosIs(m, bt);
    hide InPos, InPtr;
    ModDifference(InPtr(m, bt), r, |Flatten(fs)|);
    if fs != [] {
      assert Framed(fs[0]);
    }
  }

  lemma ModDifference(w: u32, r: nat, n: nat)
    requires r < FW_BUF && n < FW_BUF && Mod4096(w) == Wrapped(r, n, FW_BUF)
    ensures Mod4096(Minus(w, r)) == n
  {
    var q := w / FW_BUF;
    assert w == q * FW_BUF + w % FW_BUF;
  }
}
