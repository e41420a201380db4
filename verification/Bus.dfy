/** The gSPI command word of bus.go: what the driver packs and what the chip reads out of it. */
module Bus {
  import opened Words

  const FUNC_BACKPLANE := 1
  const FUNC_WLAN := 2
  const ADDR_LIMIT := 0x2_0000
  const SIZE_LIMIT := 0x800

  /** The source's expression. */
  function CmdBits(write: bool, autoInc: bool, fn: bv32, addr: bv32, sz: bv32): bv32 {
    (if write then 0x8000_0000 else 0)
    | (if autoInc then 0x4000_0000 else 0)
    | ((fn & 0x3) << 28)
    | ((addr & 0x1FFFF) << 11)
    | (sz & 0x7FF)
  }

  /** Its fields do not overlap, so it is a sum. */
  lemma BitsAddUp(write: bool, autoInc: bool, fn: bv32, addr: bv32, sz: bv32)
    ensures CmdBits(write, autoInc, fn, addr, sz) ==
            (if write then 0x8000_0000 else 0) + (if autoInc then 0x4000_0000 else 0)
            + ((fn & 0x3) << 28) + ((addr & 0x1FFFF) << 11) + (sz & 0x7FF)
  {
    var w: bv32, i: bv32 := if write then 0x8000_0000 else 0, if autoInc then 0x4000_0000 else 0;
    OrIsSum(w, i);
    OrIsSum(w | i, (fn & 0x3) << 28);
    OrIsSum(w | i | ((fn & 0x3) << 28), (addr & 0x1FFFF) << 11);
    OrIsSum(w | i | ((fn & 0x3) << 28) | ((addr & 0x1FFFF) << 11), sz & 0x7FF);
  }

  lemma OrIsSum(x: bv32, y: bv32)
    requires x & y == 0
    ensures x | y == x + y
  {
  }

  /** The same sum on numbers: a mask is a remainder, a shift a product. */
  function CmdWord(write: bool, autoInc: bool, fn: nat, addr: nat, sz: nat): u32 {
    (if write then 0x8000_0000 else 0) + (if autoInc then 0x4000_0000 else 0)
    + fn % 4 * 0x1000_0000 + addr % ADDR_LIMIT * 0x800 + sz % SIZE_LIMIT
  }

  datatype Fields = Fields(write: bool, autoInc: bool, fn: nat, addr: nat, sz: nat)

  /** What the chip reads out of a command word: bits 31, 30, 29-28, 27-11 and 10-0. */
  function Decode(cmd: u32): (f: Fields)
    ensures f.addr < ADDR_LIMIT && f.sz < SIZE_LIMIT
  {
    Fields(cmd / 0x8000_0000 == 1, cmd / 0x4000_0000 % 2 == 1, cmd / 0x1000_0000 % 4, cmd / 0x800 % ADDR_LIMIT,
           cmd % SIZE_LIMIT)
  }

  /** The chip decodes every field, cut to its width. */
  lemma CmdWordDecodes(write: bool, autoInc: bool, fn: nat, addr: nat, sz: nat)
    ensures Decode(CmdWord(write, autoInc, fn, addr, sz)) ==
            Fields(write, autoInc, fn % 4, addr % ADDR_LIMIT, sz % SIZE_LIMIT)
  {
    FieldsApart(if write then 1 else 0, if autoInc then 1 else 0, fn % 4, addr % ADDR_LIMIT, sz % SIZE_LIMIT);
  }

  /** In range, the chip sees what was meant. */
  lemma InRangeDecodes(write: bool, fn: nat, addr: nat, sz: nat)
    requires fn < 4 && addr < ADDR_LIMIT && sz < SIZE_LIMIT
    ensures Decode(CmdWord(write, true, fn, addr, sz)) == Fields(write, true, fn, addr, sz)
  {
    CmdWordDecodes(write, true, fn, addr, sz);
  }

  lemma FieldsApart(w: nat, i: nat, f: nat, a: nat, s: nat)
    requires w < 2 && i < 2 && f < 4 && a < ADDR_LIMIT && s < SIZE_LIMIT
    ensures var cmd := w * 0x8000_0000 + i * 0x4000_0000 + f * 0x1000_0000 + a * 0x800 + s;
            && cmd / 0x8000_0000 == w && cmd / 0x4000_0000 % 2 == i && cmd / 0x1000_0000 % 4 == f
            && cmd / 0x800 % ADDR_LIMIT == a && cmd % SIZE_LIMIT == s
  {
    var cmd := w * 0x8000_0000 + i * 0x4000_0000 + f * 0x1000_0000 + a * 0x800 + s;
    var q := (w * 2 + i) * 4 + f;
    assert cmd == (q * ADDR_LIMIT + a) * 0x800 + s;
    assert cmd / 0x800 == q * ADDR_LIMIT + a;
    assert cmd == q * 0x1000_0000 + (a * 0x800 + s) && a * 0x800 + s < 0x1000_0000;
    assert cmd / 0x1000_0000 == q;
    assert cmd == (w * 2 + i) * 0x4000_0000 + (f * 0x1000_0000 + a * 0x800 + s);
    assert cmd / 0x4000_0000 == w * 2 + i;
  }

  /** The chip sees the size that was meant if and only if it is below 2048; 2048 itself is announced as zero. */
  lemma SizeExact(write: bool, autoInc: bool, fn: nat, addr: nat, sz: nat)
    ensures Decode(CmdWord(write, autoInc, fn, addr, sz)).sz == sz <==> sz < SIZE_LIMIT
    ensures sz == SIZE_LIMIT ==> Decode(CmdWord(write, autoInc, fn, addr, sz)).sz == 0
  {
    CmdWordDecodes(write, autoInc, fn, addr, sz);
  }

  function Swap16(v: bv32): bv32 {
    (v >> 16) | (v << 16)
  }

  lemma SwapTwice(v: bv32)
    ensures Swap16(Swap16(v)) == v
  {
  }
}
