/** The 32 KB window onto the chip's memory (device.go, bus.go): with the window register shadowed in a
    host cache, windowed transfers equal flat reads and writes. */
module Backplane {
  import opened Words
  import opened ChipMemory
  import opened Rings
  import opened Bus

  const WINDOW := 0x8000
  const POISON: u32 := 0xaaaa_aaaa
  const MAX_TX := 64
  const SCRATCH := 2048
  const REG_LO := 0x1000a
  const REG_MID := 0x1000b
  const REG_HI := 0x1000c
  const FLAG_32BIT := 0x8000

  /** addr with the low fifteen bits cleared. */
  function WindowOf(addr: u32): u32 {
    Upper(addr) * TWO16 + if Lower(addr) >= WINDOW then WINDOW else 0
  }

  function OffsetOf(addr: u32): nat {
    if Lower(addr) >= WINDOW then Lower(addr) - WINDOW else Lower(addr)
  }

  function ByteHi(a: u32): byte {
    Hi(Upper(a))
  }

  function ByteMid(a: u32): byte {
    Lo(Upper(a))
  }

  function ByteLo(a: u32): byte {
    Hi(Lower(a))
  }

  /** Neither of the top two bytes is the poison's. */
  predicate Plain(addr: u32) {
    ByteHi(addr) != 0xAA && ByteMid(addr) != 0xAA
  }

  function RegValue(hi: byte, mid: byte, lo: byte): u32 {
    hi * 0x100_0000 + mid * 0x1_0000 + lo * 0x100
  }

  /** An aligned window is its three register bytes; the lowest is 0x00 or 0x80. */
  lemma WindowBytes(addr: u32)
    ensures var w := WindowOf(addr);
            && w == RegValue(ByteHi(w), ByteMid(w), ByteLo(w))
            && ByteLo(w) in {0, 0x80}
            && ByteHi(w) == ByteHi(addr) && ByteMid(w) == ByteMid(addr)
            && WindowOf(w) == w && w != POISON && addr == w + OffsetOf(addr)
  {
    var u, l := Upper(addr), if Lower(addr) >= WINDOW then WINDOW else 0;
    Halves(u, l);
    assert Hi(0x8000) == 0x80 && Hi(0) == 0;
    assert POISON == 0xaaaa * TWO16 + 0xaaaa;
    Halves(0xaaaa, 0xaaaa);
  }

  /** A register byte after SetWindow: written only where the cached byte differs. */
  function NewReg(cached: byte, wanted: byte, reg: byte): byte {
    if cached != wanted then wanted else reg
  }

  /** From a poisoned cache, the register ends at the window of addr when it held hi and mid. */
  ghost predicate LandsFromPoison(addr: u32, hi: byte, mid: byte) {
    NewReg(0xAA, ByteHi(addr), hi) == ByteHi(addr) && NewReg(0xAA, ByteMid(addr), mid) == ByteMid(addr)
  }

  /** The first access after poison reaches its window whatever the register held, if and only if neither
      of the address's top two bytes is 0xAA. */
  lemma PoisonExact(addr: u32)
    ensures (forall hi: byte, mid: byte :: LandsFromPoison(addr, hi, mid)) <==> Plain(addr)
    ensures ByteHi(POISON) == ByteMid(POISON) == 0xAA
  {
    Halves(0xaaaa, 0xaaaa);
    assert POISON == 0xaaaa * TWO16 + 0xaaaa;
    if !Plain(addr) {
      assert !LandsFromPoison(addr, 0, 0);
    }
  }

  /** How a window-register write can go wrong: not done, or done and reported as failed. */
  datatype Fault = Works | Lost | Landed

  /** The chip behind the bus: three window register bytes and a flat memory. */
  class Chip {
    var hi: byte
    var mid: byte
    var lo: byte
    var mem: seq<byte>

    ghost predicate Valid()
      reads this
    {
      |mem| == TWO32
    }

    /** Where an offset within the window lands; only bit 7 of the low byte counts. */
    function Base(): (b: u32)
      reads this
      ensures b + WINDOW <= TWO32
    {
      BaseRoom(hi, mid, if lo >= 0x80 then 0x80 else 0);
      RegValue(hi, mid, if lo >= 0x80 then 0x80 else 0)
    }

    /** A one-byte write in the register area. */
    method WriteRegister(cmd: u32, val: byte)
      modifies this`hi, this`mid, this`lo
      ensures hi == if Decode(cmd).addr == REG_HI then val else old(hi)
      ensures mid == if Decode(cmd).addr == REG_MID then val else old(mid)
      ensures lo == if Decode(cmd).addr == REG_LO then val else old(lo)
    {
      var addr := Decode(cmd).addr;
      if addr == REG_HI {
        hi := val;
      } else if addr == REG_MID {
        mid := val;
      } else if addr == REG_LO {
        lo := val;
      }
    }

    /** A burst within the window. The chip takes the size announced from the words clocked in. */
    method Write(cmd: u32, words: seq<byte>)
      requires Valid() && Bursts(cmd) && Decode(cmd).sz <= |words|
      modifies this`mem
      ensures Valid() && mem == Overlay(old(mem), Base() + InWindow(Decode(cmd).addr), words[..Decode(cmd).sz])
    {
      var at, size := Base() + InWindow(Decode(cmd).addr), Decode(cmd).sz;
      mem := mem[..at] + words[..size] + mem[at + size..];
    }

    /** The words clocked out: one of response delay, then the size announced, then whatever fills the last word. */
    method Read(cmd: u32, fill: seq<byte>) returns (words: seq<byte>)
      requires Valid() && Bursts(cmd) && |fill| >= 4
      ensures var f := Decode(cmd);
              |words| >= 4 + f.sz && words[4..4 + f.sz] == Fetch(mem, Base() + InWindow(f.addr), f.sz)
    {
      var at, size := Base() + InWindow(Decode(cmd).addr), Decode(cmd).sz;
      words := fill[..4] + mem[at..at + size] + fill;
    }
  }

  /** A backplane command for memory that does not run past the window. */
  predicate Bursts(cmd: u32) {
    var f := Decode(cmd);
    f.fn == FUNC_BACKPLANE && f.addr < 2 * WINDOW && InWindow(f.addr) + f.sz <= WINDOW
  }

  /** The offset a command's address means: bit 15 only asks for a 32-bit access. */
  function InWindow(addr: nat): nat
    requires addr < 2 * WINDOW
    ensures InWindow(addr) < WINDOW
  {
    if addr >= FLAG_32BIT then addr - FLAG_32BIT else addr
  }

  lemma BaseRoom(hi: byte, mid: byte, lo: byte)
    requires lo in {0, 0x80}
    ensures RegValue(hi, mid, lo) + WINDOW <= TWO32
  {
  }

  class Device {
    var backplaneWindow: u32
    const chip: Chip
    const iovarBuf: array<byte>
    /** What happens to the coming register writes; when used up, they work. */
    var faults: seq<Fault>

    /** The cached window is the chip's, or the cache is poisoned. */
    ghost predicate Coherent()
      reads this, chip
    {
      backplaneWindow == POISON || Agrees()
    }

    ghost predicate Agrees()
      reads this, chip
    {
      && WindowOf(backplaneWindow) == backplaneWindow
      && chip.hi == ByteHi(backplaneWindow)
      && chip.mid == ByteMid(backplaneWindow)
      && chip.lo == ByteLo(backplaneWindow)
    }

    ghost predicate Valid()
      reads this, chip
    {
      chip.Valid() && iovarBuf.Length == SCRATCH && Coherent()
    }

    /** The first access after poison avoids the poison's bytes. */
    ghost predicate Ready(addr: u32)
      reads this
    {
      backplaneWindow == POISON ==> Plain(addr)
    }

    ghost predicate Faultless()
      reads this
    {
      faults == []
    }

    /** init.go leaves the cache poisoned and the chip's register unknown. */
    constructor (c: Chip, fs: seq<Fault>)
      requires c.Valid()
      ensures Valid() && chip == c && backplaneWindow == POISON && faults == fs && fresh(iovarBuf)
    {
      backplaneWindow := POISON;
      chip := c;
      iovarBuf := new byte[SCRATCH];
      faults := fs;
    }

    method WriteWindowByte(addr: nat, val: byte) returns (ok: bool)
      requires addr in {REG_LO, REG_MID, REG_HI}
      modifies this`faults, chip`hi, chip`mid, chip`lo
      ensures ok ==> chip.hi == (if addr == REG_HI then val else old(chip.hi))
                     && chip.mid == (if addr == REG_MID then val else old(chip.mid))
                     && chip.lo == (if addr == REG_LO then val else old(chip.lo))
      ensures old(Faultless()) ==> ok && Faultless()
    {
      var cmd := CmdWord(true, true, FUNC_BACKPLANE, addr, 1);
      InRangeDecodes(true, FUNC_BACKPLANE, addr, 1);
      hide CmdWord, Decode;
      if faults == [] {
        chip.WriteRegister(cmd, val);
        return true;
      }
      var f := faults[0];
      faults := faults[1..];
      if f != Lost {
        chip.WriteRegister(cmd, val);
      }
      return f == Works;
    }

    /** Without a poisoned cache every successful call leaves the chip at the window of addr; from poison it
        does so for plain addresses (PoisonExact). A failed register write poisons the cache. */
    method SetWindow(addr: u32) returns (ok: bool)
      requires Coherent()
      modifies this`backplaneWindow, this`faults, chip`hi, chip`mid, chip`lo
      ensures !ok ==> backplaneWindow == POISON
      ensures ok ==> backplaneWindow == WindowOf(addr) && chip.lo == ByteLo(backplaneWindow)
      ensures ok && WindowOf(addr) != old(backplaneWindow) ==>
                chip.hi == NewReg(ByteHi(old(backplaneWindow)), ByteHi(addr), old(chip.hi))
                && chip.mid == NewReg(ByteMid(old(backplaneWindow)), ByteMid(addr), old(chip.mid))
      ensures ok && old(Ready(addr)) ==> Agrees() && backplaneWindow != POISON
      ensures old(Ready(addr)) ==> Coherent()
      ensures old(Faultless()) ==> ok && Faultless()
    {
      var current := backplaneWindow;
      var w := WindowOf(addr);
      WindowBytes(addr);
      if w == current {
        return true;
      }
      if ByteHi(w) != ByteHi(current) {
        ok := WriteWindowByte(REG_HI, ByteHi(w));
        if !ok {
          backplaneWindow := POISON;
          return;
        }
      }
      if ByteMid(w) != ByteMid(current) {
        ok := WriteWindowByte(REG_MID, ByteMid(w));
        if !ok {
          backplaneWindow := POISON;
          return;
        }
      }
      if ByteLo(w) != ByteLo(current) {
        ok := WriteWindowByte(REG_LO, ByteLo(w));
        if !ok {
          backplaneWindow := POISON;
          return;
        }
      }
      backplaneWindow := w;
      return true;
    }

    /** src[off..off + len] is the slice Go passes; it may lie in the scratch buffer. */
    method BpWrite(addr: u32, src: array<byte>, off: nat, len: nat) returns (ok: bool, ghost done: nat)
      requires Valid() && Ready(addr) && off + len <= src.Length && len < TWO32
      modifies this`backplaneWindow, this`faults, chip, iovarBuf
      ensures Valid() && done <= len && (ok <==> done == len)
      ensures chip.mem == Overlay(old(chip.mem), addr, old(src[off..off + len])[..done])
      ensures forall i | MAX_TX <= i < SCRATCH :: iovarBuf[i] == old(iovarBuf[i])
      ensures ok && len > 0 ==> backplaneWindow != POISON
      ensures old(Faultless()) ==> ok && Faultless()
    {
      hide Overlay, OffsetOf, Plain, Agrees;
      ghost var data, m0 := src[off..off + len], chip.mem;
      var n: nat := 0;
      var a := addr;
      ok := true;
      OverlayEmpty(m0, addr);
      while ok && n < len
        invariant Valid() && n <= len && a == At(addr, n) && (!ok ==> n < len)
        invariant ok ==> Ready(a) && (n > 0 ==> backplaneWindow != POISON)
        invariant chip.mem == Overlay(m0, addr, data[..n])
        invariant ok ==> src[off + n..off + len] == data[n..]
        invariant forall i | MAX_TX <= i < SCRATCH :: iovarBuf[i] == old(iovarBuf[i])
        invariant old(Faultless()) ==> ok && Faultless()
        decreases ok, len - n
      {
        var length;
        ok, length := WriteNext(a, src, off + n, len - n, data[n..]);
        if ok {
          assert data[n..][..length] == data[n..n + length] && data[n..][length..] == data[n + length..];
          OverlayExtend(m0, addr, data, n, length);
          n := n + length;
          a := At(addr, n);
        }
      }
      done := n;
    }

    /** One round of the write loop, with the bytes left to send. */
    method WriteNext(a: u32, src: array<byte>, from: nat, n: nat, ghost left: seq<byte>)
      returns (ok: bool, length: nat)
      requires Valid() && Ready(a) && 0 < n == |left| < TWO32
      requires from + |left| <= src.Length && src[from..from + |left|] == left
      modifies this`backplaneWindow, this`faults, chip, iovarBuf
      ensures Valid() && 0 < length <= |left| && length <= MAX_TX
      ensures ok ==> backplaneWindow != POISON && chip.mem == Overlay(old(chip.mem), a, left[..length])
      ensures !ok ==> chip.mem == old(chip.mem)
      ensures src[from + length..from + |left|] == left[length..]
      ensures forall i | MAX_TX <= i < SCRATCH :: iovarBuf[i] == old(iovarBuf[i])
      ensures old(Faultless()) ==> ok && Faultless()
    {
      hide Overlay;
      length := ChunkLength(a, n);
      Stage(src, from, length, left);
      ghost var bytes := src[..];
      ok := WriteChunk(a, length);
      assert src[..] == bytes;
    }

    /** At most 64 bytes and not past the end of the window. */
    method ChunkLength(addr: u32, remaining: nat) returns (length: nat)
      requires remaining > 0
      ensures 0 < length <= MAX_TX && length <= remaining && OffsetOf(addr) + length <= WINDOW
    {
      var windowRemaining := WINDOW - OffsetOf(addr);
      length := remaining;
      if length > MAX_TX {
        length := MAX_TX;
      }
      if length > windowRemaining {
        length := windowRemaining;
      }
    }

    /** Copies the next chunk of the bytes left to the front of the scratch buffer. They may stand in the
        scratch buffer itself: bytes not sent yet stay as they are, because they start at or behind the
        chunk's length. */
    method Stage(src: array<byte>, from: nat, length: nat, ghost left: seq<byte>)
      requires iovarBuf.Length == SCRATCH && length <= MAX_TX
      requires length <= |left| && from + |left| <= src.Length && src[from..from + |left|] == left
      modifies iovarBuf
      ensures iovarBuf[..length] == left[..length]
      ensures forall i | MAX_TX <= i < SCRATCH :: iovarBuf[i] == old(iovarBuf[i])
      ensures src[from + length..from + |left|] == left[length..]
    {
      assert forall i | 0 <= i < |left| :: left[i] == src[from..from + |left|][i] == src[from + i];
      forall i | 0 <= i < length {
        iovarBuf[i] := src[from + i];
      }
      assert forall i | length <= i < |left| :: src[from + length..from + |left|][i - length] == left[i];
    }

    method WriteChunk(addr: u32, length: nat) returns (ok: bool)
      requires Valid() && Ready(addr) && length <= MAX_TX && OffsetOf(addr) + length <= WINDOW
      modifies this`backplaneWindow, this`faults, chip
      ensures Valid()
      ensures ok ==> backplaneWindow != POISON && chip.mem == Overlay(old(chip.mem), addr, iovarBuf[..length])
      ensures !ok ==> chip.mem == old(chip.mem)
      ensures old(Faultless()) ==> ok && Faultless()
    {
      ok := SetWindow(addr);
      if !ok {
        return;
      }
      WindowBytes(addr);
      hide CmdWord, Decode;
      InRangeDecodes(true, FUNC_BACKPLANE, OffsetOf(addr), length);
      var words := (length + 3) / 4 + 1;
      chip.Write(CmdWord(true, true, FUNC_BACKPLANE, OffsetOf(addr), length), iovarBuf[..words * 4]);
      assert iovarBuf[..words * 4][..length] == iovarBuf[..length];
    }

    method BpRead(addr: u32, dst: array<byte>, off: nat, len: nat) returns (ok: bool)
      requires Valid() && Ready(addr) && off + len <= dst.Length && len < TWO32
      modifies this`backplaneWindow, this`faults, chip`hi, chip`mid, chip`lo, dst
      ensures Valid()
      ensures ok ==> dst[off..off + len] == Fetch(chip.mem, addr, len)
      ensures forall i | 0 <= i < dst.Length && !(off <= i < off + len) :: dst[i] == old(dst[i])
      ensures ok && len > 0 ==> backplaneWindow != POISON
      ensures old(Faultless()) ==> ok && Faultless()
    {
      hide Fetch, OffsetOf, Plain, Agrees;
      var n: nat := 0;
      var a := addr;
      ok := true;
      FetchEmpty(chip.mem, addr);
      while ok && n < len
        invariant Valid() && n <= len && a == At(addr, n) && (!ok ==> n < len)
        invariant ok ==> Ready(a) && (n > 0 ==> backplaneWindow != POISON)
        invariant dst[off..off + n] == Fetch(chip.mem, addr, n)
        invariant forall i | 0 <= i < dst.Length && !(off <= i < off + len) :: dst[i] == old(dst[i])
        invariant old(Faultless()) ==> ok && Faultless()
        decreases ok, len - n
      {
        var length := ChunkLength(a, len - n);
        ghost var before := dst[off..off + n];
        ok := ReadChunk(a, dst, off + n, length);
        assert dst[off..off + n] == before;
        if ok {
          FetchConcat(chip.mem, addr, n, length);
          assert dst[off..off + n + length] == dst[off..off + n] + dst[off + n..off + n + length];
          n := n + length;
          a := At(addr, n);
        }
      }
    }

    method ReadChunk(addr: u32, dst: array<byte>, off: nat, length: nat) returns (ok: bool)
      requires Valid() && Ready(addr) && length <= MAX_TX && OffsetOf(addr) + length <= WINDOW
      requires off + length <= dst.Length
      modifies this`backplaneWindow, this`faults, chip`hi, chip`mid, chip`lo, dst
      ensures Valid()
      ensures ok ==> backplaneWindow != POISON
                     && dst[off..off + length] == Fetch(chip.mem, addr, length)
      ensures forall i | 0 <= i < dst.Length && !(off <= i < off + length) :: dst[i] == old(dst[i])
      ensures old(Faultless()) ==> ok && Faultless()
    {
      ok := SetWindow(addr);
      if !ok {
        return;
      }
      WindowBytes(addr);
      hide CmdWord, Decode;
      InRangeDecodes(false, FUNC_BACKPLANE, OffsetOf(addr), length);
      var words := chip.Read(CmdWord(false, true, FUNC_BACKPLANE, OffsetOf(addr), length), [0, 0, 0, 0]);
      CopyIn(dst, off, words[4..4 + length]);
    }

    method Read32(addr: u32) returns (ok: bool, v: u32)
      requires Valid() && Ready(addr) && addr % 4 == 0
      modifies this`backplaneWindow, this`faults, chip`hi, chip`mid, chip`lo
      ensures Valid()
      ensures ok ==> Le32(v) == Fetch(chip.mem, addr, 4) && backplaneWindow != POISON
      ensures !ok ==> v == 0
      ensures old(Faultless()) ==> ok && Faultless()
    {
      v := 0;
      ok := SetWindow(addr);
      if !ok {
        return;
      }
      WindowBytes(addr);
      AlignedRoom(addr);
      hide CmdWord, Decode;
      InRangeDecodes(false, FUNC_BACKPLANE, OffsetOf(addr) + FLAG_32BIT, 4);
      var words := chip.Read(CmdWord(false, true, FUNC_BACKPLANE, OffsetOf(addr) + FLAG_32BIT, 4), [0, 0, 0, 0]);
      v := FromLe32(words[4..8]);
    }

    method Write32(addr: u32, v: u32) returns (ok: bool)
      requires Valid() && Ready(addr) && addr % 4 == 0
      modifies this`backplaneWindow, this`faults, chip
      ensures Valid()
      ensures ok ==> backplaneWindow != POISON && chip.mem == Overlay(old(chip.mem), addr, Le32(v))
      ensures !ok ==> chip.mem == old(chip.mem)
      ensures old(Faultless()) ==> ok && Faultless()
    {
      ok := SetWindow(addr);
      if !ok {
        return;
      }
      WindowBytes(addr);
      AlignedRoom(addr);
      hide CmdWord, Decode;
      InRangeDecodes(true, FUNC_BACKPLANE, OffsetOf(addr) + FLAG_32BIT, 4);
      chip.Write(CmdWord(true, true, FUNC_BACKPLANE, OffsetOf(addr) + FLAG_32BIT, 4), Le32(v));
    }
  }

  lemma OverlayExtend(m: seq<byte>, addr: u32, data: seq<byte>, n: nat, k: nat)
    requires |m| == TWO32 && n + k <= |data| <= TWO32
    ensures Overlay(Overlay(m, addr, data[..n]), At(addr, n), data[n..n + k]) == Overlay(m, addr, data[..n + k])
  {
    OverlayConcat(m, addr, data[..n], data[n..n + k]);
    assert data[..n] + data[n..n + k] == data[..n + k];
  }

  lemma AlignedRoom(addr: u32)
    requires addr % 4 == 0
    ensures OffsetOf(addr) + 4 <= WINDOW
  {
  }
}
