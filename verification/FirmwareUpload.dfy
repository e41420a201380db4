/** btUploadFirmware (bluetooth.go): every record is widened to whole words by reading its neighbours, staged in
    the scratch buffer and written from there in 64-byte chunks. */
module FirmwareUpload {
  import opened Words
  import opened Rings
  import opened ChipMemory
  import opened Backplane
  import opened HexFirmware

  const BT_BASE: u32 := 0x1900_0000
  const ALIGNED := 256
  const CHUNK := 64

  datatype Status = Done | BusError | BadFirmware | Panicked

  /** The addresses a record at a touches avoid the poison's bytes. */
  ghost predicate PlainNear(a: u32) {
    forall i: nat | i <= ALIGNED + 4 :: Plain(At(WordStart(a), i))
  }

  function WordStart(a: u32): u32 {
    a - a % 4
  }

  function PadOf(a: u32): nat {
    a % 4
  }

  function TailOf(end: u32): nat {
    if end % 4 == 0 then 0 else 4 - end % 4
  }

  lemma WordFacts(a: u32, n: nat)
    requires n <= ALIGNED
    ensures WordStart(a) % 4 == 0 && At(WordStart(a), PadOf(a)) == a
    ensures At(WordStart(a), PadOf(a) + n) == At(a, n)
    ensures PadOf(a) + n <= ALIGNED ==> PadOf(a) + n + TailOf(At(a, n)) <= ALIGNED
  {
  }

  /** The bytes memory holds at a word, or zeros when the read fails: the source ignores the error. */
  method Neighbours(d: Device, word: u32) returns (bytes: seq<byte>, ghost ok: bool)
    requires d.Valid() && d.Ready(word) && word % 4 == 0
    modifies d`backplaneWindow, d`faults, d.chip`hi, d.chip`mid, d.chip`lo
    ensures d.Valid() && |bytes| == 4
    ensures bytes == if ok then Fetch(d.chip.mem, word, 4) else [0, 0, 0, 0]
    ensures ok ==> d.backplaneWindow != POISON
    ensures old(d.Faultless()) ==> ok && d.Faultless()
  {
    var there, v := d.Read32(word);
    bytes := Le32(v);
    ok := there;
    if !there {
      ZeroWord();
    }
  }

  lemma ZeroWord()
    ensures Le32(0) == [0, 0, 0, 0]
  {
    LeRoundTrip(0, 0, 0, 0);
  }

  /** Which of the two neighbour reads were answered. */
  datatype Reads = Reads(head: bool, tail: bool)

  ghost function HeadBytes(m: seq<byte>, dst: u32, ok: bool): (s: seq<byte>)
    requires |m| == TWO32
    ensures |s| == PadOf(dst)
  {
    if ok then Fetch(m, WordStart(dst), PadOf(dst)) else seq(PadOf(dst), _ => 0)
  }

  ghost function TailBytes(m: seq<byte>, end: u32, ok: bool): (s: seq<byte>)
    requires |m| == TWO32
    ensures |s| == TailOf(end)
  {
    if ok then Fetch(m, end, TailOf(end)) else seq(TailOf(end), _ => 0)
  }

  /** A record widened to whole words. */
  ghost function Widened(m: seq<byte>, dst: u32, bytes: seq<byte>, r: Reads): (s: seq<byte>)
    requires |m| == TWO32 && |bytes| <= ALIGNED
  {
    HeadBytes(m, dst, r.head) + bytes + TailBytes(m, At(dst, |bytes|), r.tail)
  }

  /** Head alignment: the bytes before the record, if it does not start on a word. */
  method ReadHead(d: Device, dst: u32) returns (head: seq<byte>, ghost ok: bool)
    requires d.Valid() && (PadOf(dst) != 0 ==> d.Ready(WordStart(dst)))
    modifies d`backplaneWindow, d`faults, d.chip`hi, d.chip`mid, d.chip`lo
    ensures d.Valid() && head == HeadBytes(d.chip.mem, dst, ok)
    ensures if PadOf(dst) == 0 then d.backplaneWindow == old(d.backplaneWindow)
            else ok ==> d.backplaneWindow != POISON
    ensures old(d.Faultless()) ==> ok && d.Faultless()
  {
    hide Fetch, Plain;
    head, ok := [], true;
    var padBytes := PadOf(dst);
    if padBytes != 0 {
      var memVal;
      memVal, ok := Neighbours(d, dst - padBytes);
      head := memVal[..padBytes];
      FetchPart(d.chip.mem, dst - padBytes, 4, 0, padBytes);
    }
  }

  /** Tail alignment: the bytes behind the record up to the next word. */
  method ReadTail(d: Device, end: u32) returns (tail: seq<byte>, ghost ok: bool)
    requires d.Valid() && (PadOf(end) != 0 ==> d.Ready(WordStart(end)))
    modifies d`backplaneWindow, d`faults, d.chip`hi, d.chip`mid, d.chip`lo
    ensures d.Valid() && tail == TailBytes(d.chip.mem, end, ok)
    ensures if PadOf(end) == 0 then d.backplaneWindow == old(d.backplaneWindow)
            else ok ==> d.backplaneWindow != POISON
    ensures old(d.Faultless()) ==> ok && d.Faultless()
  {
    hide Fetch, Plain, WordStart, TailOf, PadOf, At;
    TailFacts(end);
    tail, ok := [], true;
    var offset: nat := PadOf(end);
    if offset != 0 {
      var memVal;
      memVal, ok := Neighbours(d, end - offset);
      tail := memVal[offset..];
      FetchPart(d.chip.mem, end - offset, 4, offset, 4);
      assert !ok ==> tail == seq(TailOf(end), _ => 0);
      assert ok ==> tail == Fetch(d.chip.mem, end, TailOf(end));
    } else {
      FetchEmpty(d.chip.mem, end);
    }
  }

  lemma TailFacts(end: u32)
    ensures PadOf(end) <= end && PadOf(end) < 4 && WordStart(end) == end - PadOf(end) && WordStart(end) % 4 == 0
    ensures At(WordStart(end), PadOf(end)) == end && TailOf(end) == if PadOf(end) == 0 then 0 else 4 - PadOf(end)
  {
  }

  /** The widened record goes out of the scratch buffer in chunks, through the scratch buffer. */
  method WriteChunks(d: Device, dst: u32, ghost all: seq<byte>, idx: nat) returns (ok: bool, ghost done: nat)
    requires d.Valid() && |all| == idx <= ALIGNED && d.iovarBuf[..idx] == all
    requires d.Ready(dst)
    modifies d`backplaneWindow, d`faults, d.chip, d.iovarBuf
    ensures d.Valid() && done <= idx && (ok <==> done == idx)
    ensures d.chip.mem == Overlay(old(d.chip.mem), dst, all[..done])
    ensures ok && idx > 0 ==> d.backplaneWindow != POISON
    ensures old(d.Faultless()) ==> ok && d.Faultless()
  {
    hide Overlay, Plain;
    ghost var m0 := d.chip.mem;
    var off: nat := 0;
    OverlayEmpty(m0, dst);
    ok, done := true, 0;
    while ok && off < idx
      invariant d.Valid() && off <= idx && done <= idx && (if ok then done == off else done < idx)
      invariant ok && off > 0 ==> d.backplaneWindow != POISON
      invariant ok && off == 0 ==> d.backplaneWindow == old(d.backplaneWindow)
      invariant ok && off < idx ==> off % CHUNK == 0
      invariant d.chip.mem == Overlay(m0, dst, all[..done])
      invariant ok ==> d.iovarBuf[off..idx] == all[off..]
      invariant old(d.Faultless()) ==> ok && d.Faultless()
      decreases ok, idx - off
    {
      var end := Min(off + CHUNK, idx);
      ghost var n;
      ok, n := WriteOne(d, At(dst, off), off, end, idx, all[off..]);
      OverlayExtend(m0, dst, all, off, n);
      assert all[off..][..n] == all[off..off + n] && all[off..][end - off..] == all[end..];
      done := off + n;
      if ok {
        off := end;
      }
    }
  }

  method WriteOne(d: Device, dst: u32, off: nat, end: nat, idx: nat, ghost left: seq<byte>)
    returns (ok: bool, ghost done: nat)
    requires d.Valid() && d.Ready(dst) && off < end <= idx <= ALIGNED && d.iovarBuf[off..idx] == left
    requires end == idx || end >= MAX_TX
    modifies d`backplaneWindow, d`faults, d.chip, d.iovarBuf
    ensures d.Valid() && done <= end - off && (ok <==> done == end - off)
    ensures d.chip.mem == Overlay(old(d.chip.mem), dst, left[..done])
    ensures ok ==> d.backplaneWindow != POISON
    ensures d.iovarBuf[end..idx] == left[end - off..]
    ensures old(d.Faultless()) ==> ok && d.Faultless()
  {
    hide Overlay;
    ghost var before := d.iovarBuf[..];
    assert before[off..end] == left[..end - off] && before[end..idx] == left[end - off..];
    ok, done := d.BpWrite(dst, d.iovarBuf, off, end - off);
    assert before[off..end][..done] == left[..done];
    assert d.iovarBuf[end..idx] == before[end..idx];
  }

  /** The first address a record of n bytes at dst makes the driver access: the word it starts in, unless only its
      end is unaligned. */
  function FirstAccess(dst: u32, n: nat): u32
    requires n <= ALIGNED
  {
    if PadOf(dst) != 0 || PadOf(At(dst, n)) == 0 then WordStart(dst) else WordStart(At(dst, n))
  }

  /** Every access for a record at dst reaches its window: on a bus that works the first one has to, by PoisonExact;
      otherwise all addresses avoid the poison's bytes. */
  ghost predicate Safe(d: Device, dst: u32, n: nat)
    requires n <= ALIGNED
    reads d
  {
    PlainNear(dst) || (d.Faultless() && d.Ready(FirstAccess(dst, n)))
  }

  lemma SafeAccess(dst: u32, n: nat)
    requires PlainNear(dst) && PadOf(dst) + n <= ALIGNED
    ensures Plain(WordStart(dst)) && Plain(WordStart(At(dst, n)))
  {
    hide Plain;
    var start, k := WordStart(dst), PadOf(dst) + n;
    WordFacts(dst, n);
    WordOf(start, k);
    assert At(start, 0) == start;
    assert Plain(At(start, 0)) && Plain(At(start, k - k % 4));
  }

  lemma WordOf(start: u32, k: nat)
    requires start % 4 == 0 && k <= ALIGNED
    ensures WordStart(At(start, k)) == At(start, k - k % 4)
  {
  }

  method WriteRecord(d: Device, dst: u32, bytes: seq<byte>) returns (st: Status, ghost r: Reads, ghost done: nat)
    requires d.Valid() && 0 < |bytes| < LINE_MAX && Safe(d, dst, |bytes|)
    modifies d`backplaneWindow, d`faults, d.chip, d.iovarBuf
    ensures d.Valid() && st in {Done, BusError, Panicked}
    ensures st == Panicked <==> PadOf(dst) + |bytes| > ALIGNED
    ensures st == Panicked ==> d.chip.mem == old(d.chip.mem)
    ensures st != Panicked ==>
              var all := Widened(old(d.chip.mem), dst, bytes, r);
              && done <= |all| && (st == Done <==> done == |all|)
              && |all| <= TWO32 && d.chip.mem == Overlay(old(d.chip.mem), WordStart(dst), all[..done])
    ensures st == Done ==>
              d.chip.mem == Overlay(old(d.chip.mem), WordStart(dst), Widened(old(d.chip.mem), dst, bytes, r))
    ensures st == Done ==> d.backplaneWindow != POISON
    ensures old(d.Faultless()) ==> d.Faultless() && (st != Panicked ==> st == Done && r == Reads(true, true))
  {
    hide Overlay, PlainNear, Plain, HeadBytes, TailBytes, WordStart;
    if PlainNear(dst) {
      SafeAccess(dst, 0);
    }
    AlignedStart(dst);
    var head;
    ghost var headOk, tailOk;
    head, headOk := ReadHead(d, dst);
    r, done := Reads(headOk, true), 0;
    if |head| + |bytes| > ALIGNED {
      return Panicked, r, 0;
    }
    WordFacts(dst, |bytes|);
    if PlainNear(dst) {
      SafeAccess(dst, |bytes|);
    }
    var start := WordStart(dst);
    var end := At(start, |head| + |bytes|);
    var tail;
    tail, tailOk := ReadTail(d, end);
    r := Reads(headOk, tailOk);
    var all := head + bytes + tail;
    CopyIn(d.iovarBuf, 0, all);
    assert d.iovarBuf[..|all|] == all;
    var ok;
    ok, done := WriteChunks(d, start, all, |all|);
    assert all[..|all|] == all;
    st := if ok then Done else BusError;
  }

  lemma AlignedStart(dst: u32)
    ensures PadOf(dst) == 0 ==> WordStart(dst) == dst
    ensures WordStart(dst) % 4 == 0
  {
  }

  /** The widened write is the record's own write if and only if the padding is what memory held: a neighbour
      read that failed must have met zeros. */
  lemma RecordExact(m: seq<byte>, dst: u32, bytes: seq<byte>, r: Reads)
    requires |m| == TWO32 && PadOf(dst) + |bytes| <= ALIGNED
    ensures Overlay(m, WordStart(dst), Widened(m, dst, bytes, r)) == Overlay(m, dst, bytes) <==>
            HeadBytes(m, dst, r.head) == HeadBytes(m, dst, true)
            && TailBytes(m, At(dst, |bytes|), r.tail) == TailBytes(m, At(dst, |bytes|), true)
  {
    hide Overlay;
    var start := WordStart(dst);
    WordFacts(dst, |bytes|);
    var head, tail := HeadBytes(m, dst, r.head), TailBytes(m, At(dst, |bytes|), r.tail);
    if head == HeadBytes(m, dst, true) && tail == TailBytes(m, At(dst, |bytes|), true) {
      OverlayNeighbours(m, start, head, bytes, tail);
    }
    if Overlay(m, start, head + bytes + tail) == Overlay(m, dst, bytes) {
      NeighboursNeeded(m, start, head, bytes, tail);
    }
  }

  // ---------------------------------------------------------------- the whole upload

  function LineAddress(l: Line): u32
    requires l.Data?
  {
    Add32(l.dst, BT_BASE)
  }

  /** Memory after the lines have been laid over it one by one. */
  function OverlayAll(m: seq<byte>, ls: seq<Line>): (r: seq<byte>)
    requires |m| == TWO32
    requires forall i | 0 <= i < |ls| :: ls[i].Data? && |ls[i].bytes| < LINE_MAX
    ensures |r| == TWO32
  {
    if ls == [] then m
    else Overlay(OverlayAll(m, ls[..|ls| - 1]), LineAddress(ls[|ls| - 1]), ls[|ls| - 1].bytes)
  }

  /** Memory after the lines have been laid over it widened, given which neighbour reads were answered. */
  ghost function WidenedAll(m: seq<byte>, ls: seq<Line>, rs: seq<Reads>): (r: seq<byte>)
    requires |m| == TWO32 && |rs| == |ls| && AllData(ls)
    ensures |r| == TWO32
  {
    if ls == [] then m
    else
      var n := |ls| - 1;
      var before, l := WidenedAll(m, ls[..n], rs[..n]), ls[n];
      Overlay(before, WordStart(LineAddress(l)), Widened(before, LineAddress(l), l.bytes, rs[n]))
  }

  ghost predicate AllData(ls: seq<Line>) {
    forall i | 0 <= i < |ls| :: ls[i].Data? && |ls[i].bytes| < LINE_MAX
  }

  /** Whether the record fits the staging area with the bytes in front of it. */
  predicate Fits(l: Line)
    requires l.Data?
  {
    PadOf(LineAddress(l)) + |l.bytes| <= ALIGNED
  }

  /** How many lines come before the first one that does not fit. */
  function Fitting(ls: seq<Line>): (k: nat)
    ensures k <= |ls|
    ensures forall i | 0 <= i < k :: ls[i].Data? && Fits(ls[i])
    ensures k < |ls| ==> !(ls[k].Data? && Fits(ls[k]))
  {
    if ls != [] && ls[0].Data? && Fits(ls[0]) then 1 + Fitting(ls[1..]) else 0
  }

  ghost predicate AllPlain(ls: seq<Line>) {
    forall i | 0 <= i < |ls| :: ls[i].Data? ==> PlainNear(LineAddress(ls[i]))
  }

  /** Every access reaches its window: the bus works and the first access leaves the poison, or no address
      resembles the poison at all. */
  ghost predicate Reachable(d: Device, ls: seq<Line>)
    reads d
  {
    || AllPlain(ls)
    || (d.Faultless()
        && (ls == [] || (ls[0].Data? && |ls[0].bytes| < LINE_MAX && Safe(d, LineAddress(ls[0]), |ls[0].bytes|))))
  }

  lemma ReachableLine(d: Device, ls: seq<Line>)
    requires Reachable(d, ls) && ls != [] && ls[0].Data? && |ls[0].bytes| < LINE_MAX
    ensures Safe(d, LineAddress(ls[0]), |ls[0].bytes|) && (AllPlain(ls) || d.Faultless())
  {
  }

  /** With a good cache the next line is in reach on a working bus; plain lines always are. */
  lemma ReachableNext(d: Device, ls: seq<Line>, line: Line, rest: seq<Line>)
    requires ls == [line] + rest && AllData(rest)
    requires AllPlain(ls) || (d.Faultless() && d.backplaneWindow != POISON)
    ensures Reachable(d, rest)
  {
    hide PlainNear;
    if AllPlain(ls) {
      assert forall i | 0 <= i < |rest| :: rest[i] == ls[i + 1];
    }
  }

  /** The lines done have landed; they are the first of all, and each fitted. */
  ghost predicate Progress(m: seq<byte>, mem: seq<byte>, all: seq<Line>, done: seq<Line>, rs: seq<Reads>, clean: bool) {
    && |m| == TWO32 && AllData(all) && done <= all && |rs| == |done| && Fitting(all) >= |done|
    && mem == WidenedAll(m, done, rs)
    && (clean ==> mem == OverlayAll(m, done))
  }

  /** Of a line only a beginning of its widened write has landed. */
  ghost predicate Torn(m: seq<byte>, l: Line, mem: seq<byte>)
    requires |m| == TWO32 && l.Data? && |l.bytes| < LINE_MAX
  {
    exists r: Reads, n: nat :: TornAt(m, l, mem, r, n)
  }

  ghost predicate TornAt(m: seq<byte>, l: Line, mem: seq<byte>, r: Reads, n: nat)
    requires |m| == TWO32 && l.Data? && |l.bytes| < LINE_MAX
  {
    var all := Widened(m, LineAddress(l), l.bytes, r);
    n < |all| <= TWO32 && mem == Overlay(m, WordStart(LineAddress(l)), all[..n])
  }

  /** What an upload of all lines has done to memory m: every line before the first that does not fit has landed
      widened, and on a bus that worked throughout, exactly as the record itself; when the bus fails, the lines done
      and a beginning of the next. */
  ghost predicate Uploaded(m: seq<byte>, mem: seq<byte>, all: seq<Line>, st: Status, rs: seq<Reads>, clean: bool)
    requires |m| == TWO32
  {
    && AllData(all)
    && var k := Fitting(all);
       && st in {Done, BusError, Panicked}
       && (st == Done ==> k == |all|) && (st == Panicked ==> k < |all|)
       && (st != BusError ==> |rs| == k && mem == WidenedAll(m, all[..k], rs))
       && (st == BusError ==>
             |rs| < |all| && |rs| <= k && Fits(all[|rs|]) && Torn(WidenedAll(m, all[..|rs|], rs), all[|rs|], mem))
       && (clean ==> st == (if k == |all| then Done else Panicked) && mem == OverlayAll(m, all[..k]))
  }

  lemma LineLanded(m: seq<byte>, mem: seq<byte>, mem': seq<byte>, all: seq<Line>, done: seq<Line>, rs: seq<Reads>,
                   clean: bool, line: Line, r: Reads)
    requires Progress(m, mem, all, done, rs, clean) && |done| < |all| && all[|done|] == line && Fits(line)
    requires |mem| == TWO32 && (clean ==> r == Reads(true, true))
    requires mem' == Overlay(mem, WordStart(LineAddress(line)), Widened(mem, LineAddress(line), line.bytes, r))
    ensures Progress(m, mem', all, done + [line], rs + [r], clean)
  {
    hide Overlay, Widened, OverlayAll, WidenedAll, Fits;
    FitsHere(all, |done|, line);
    OneMore(m, done, rs, line, r);
    assert done + [line] == all[..|done| + 1];
  }

  /** One line of the upload. */
  method UploadLine(d: Device, dst: u32, bytes: seq<byte>, ghost line: Line, ghost m0: seq<byte>,
                    ghost all: seq<Line>, ghost done: seq<Line>, ghost rs: seq<Reads>, ghost clean: bool)
    returns (st: Status, ghost r: Reads)
    requires d.Valid() && Progress(m0, d.chip.mem, all, done, rs, clean) && (clean ==> d.Faultless())
    requires |done| < |all| && all[|done|] == line && line.Data? && dst == LineAddress(line) && bytes == line.bytes
    requires 0 < |bytes| < LINE_MAX && Safe(d, dst, |bytes|)
    modifies d`backplaneWindow, d`faults, d.chip, d.iovarBuf
    ensures d.Valid() && (old(d.Faultless()) ==> d.Faultless())
    ensures st == Done ==>
              d.backplaneWindow != POISON && Progress(m0, d.chip.mem, all, done + [line], rs + [r], clean)
    ensures st != Done ==> st != BadFirmware && Uploaded(m0, d.chip.mem, all, st, rs, clean)
  {
    hide Overlay, Widened, Progress, Uploaded, Safe;
    ghost var mem := d.chip.mem;
    ghost var n;
    st, r, n := WriteRecord(d, dst, bytes);
    if st == Done {
      LineLanded(m0, mem, d.chip.mem, all, done, rs, clean, line, r);
    } else if st == Panicked {
      UploadStop(m0, mem, all, done, rs, clean, line);
    } else {
      assert !clean;
      assert TornAt(mem, line, d.chip.mem, r, n);
      UploadFailed(m0, mem, d.chip.mem, all, done, rs, line, r, n);
    }
  }

  /** The loop over the lines. Each record lands widened, in order, up to the first that does not fit, where the
      source panics; on a bus that works, memory ends as the overlay of the records themselves. */
  method UploadLines(d: Device, h: HexFile, firmware: seq<byte>) returns (st: Status, ghost rs: seq<Reads>)
    requires d.Valid() && h.Valid() && h.data != d.iovarBuf
    requires Reachable(d, Lines(firmware, h.State()))
    modifies d`backplaneWindow, d`faults, d.chip, d.iovarBuf, h, h.data
    ensures d.Valid() && st != BadFirmware
    ensures old(d.Faultless()) ==> d.Faultless()
    ensures Uploaded(old(d.chip.mem), d.chip.mem, Lines(firmware, old(h.State())), st, rs, old(d.Faultless()))
  {
    hide Overlay, OverlayAll, WidenedAll, Widened, Lines, NextLine, Reachable, Fits, Safe, AllPlain, Progress, AllData,
      Uploaded;
    ghost var all, m0, clean := Lines(firmware, h.State()), d.chip.mem, d.Faultless();
    ghost var done: seq<Line> := [];
    rs := [];
    var fw := firmware;
    LinesAreData(firmware, h.State());
    assert done + Lines(fw, h.State()) == all;
    UploadStart(m0, all, clean);
    while true
      invariant d.Valid() && Reachable(d, Lines(fw, h.State()))
      invariant done + Lines(fw, h.State()) == all && Progress(m0, d.chip.mem, all, done, rs, clean)
      invariant clean ==> d.Faultless()
      decreases |fw|
    {
      LinesUnfold(fw, h.State());
      var numBytes;
      ghost var line, rest, mem := NextLine(fw, h.State(), 0).line, Lines(fw, h.State()), d.chip.mem;
      numBytes, fw := h.ReadPatchLine(fw);
      if numBytes == 0 {
        assert done + [] == done;
        UploadEnd(m0, mem, all, done, rs, clean);
        return Done, rs;
      }
      assert all[|done|] == line;
      ReachableLine(d, rest);
      ghost var r;
      st, r := UploadLine(d, Add32(h.dstAddr, BT_BASE), h.data[..numBytes], line, m0, all, done, rs, clean);
      if st != Done {
        return;
      }
      LinesAreData(fw, h.State());
      ReachableNext(d, rest, line, Lines(fw, h.State()));
      Regroup(done, line, Lines(fw, h.State()));
      done, rs := done + [line], rs + [r];
    }
  }

  lemma Regroup(done: seq<Line>, line: Line, rest: seq<Line>)
    ensures done + ([line] + rest) == (done + [line]) + rest
  {
  }

  lemma UploadStart(m: seq<byte>, all: seq<Line>, clean: bool)
    requires |m| == TWO32 && AllData(all)
    ensures Progress(m, m, all, [], [], clean)
  {
  }

  /** Nothing is left: every line has landed. */
  lemma UploadEnd(m: seq<byte>, mem: seq<byte>, all: seq<Line>, done: seq<Line>, rs: seq<Reads>, clean: bool)
    requires Progress(m, mem, all, done, rs, clean) && done == all
    ensures Uploaded(m, mem, all, Done, rs, clean)
  {
    assert all[..|all|] == all;
  }

  /** The next line does not fit. */
  lemma UploadStop(m: seq<byte>, mem: seq<byte>, all: seq<Line>, done: seq<Line>, rs: seq<Reads>, clean: bool,
                   line: Line)
    requires Progress(m, mem, all, done, rs, clean) && |done| < |all| && all[|done|] == line && !Fits(line)
    ensures Uploaded(m, mem, all, Panicked, rs, clean)
  {
    FitsHere(all, |done|, line);
    assert all[..|done|] == done;
  }

  /** A register write failed on a line. */
  lemma UploadFailed(m: seq<byte>, mem: seq<byte>, mem': seq<byte>, all: seq<Line>, done: seq<Line>, rs: seq<Reads>,
                     line: Line, r: Reads, n: nat)
    requires Progress(m, mem, all, done, rs, false) && |mem| == TWO32
    requires |done| < |all| && all[|done|] == line && Fits(line) && TornAt(mem, line, mem', r, n)
    ensures Uploaded(m, mem', all, BusError, rs, false)
  {
    hide TornAt, WidenedAll;
    FitsHere(all, |done|, line);
    assert all[..|done|] == done;
  }

  /** A line behind lines that fit is counted exactly when it fits itself. */
  lemma FitsHere(all: seq<Line>, n: nat, line: Line)
    requires n < |all| && all[n] == line && line.Data? && Fitting(all) >= n
    ensures if Fits(line) then Fitting(all) > n else Fitting(all) == n
  {
  }

  lemma {:induction false} LinesAreData(fw: seq<byte>, p: Parser)
    requires |p.data| == LINE_MAX
    ensures AllData(Lines(fw, p))
    decreases |fw|
  {
    LinesUnfold(fw, p);
    var r := NextLine(fw, p, 0);
    if r.line.End? {
    } else {
      LinesAreData(r.rest, r.p);
    }
  }

  /** The version string in front of the records: its length, its bytes and one byte of padding. */
  predicate HasVersion(firmware: seq<byte>) {
    |firmware| >= 3 && firmware[0] as int + 2 <= |firmware|
  }

  function Records(firmware: seq<byte>): seq<byte>
    requires HasVersion(firmware)
  {
    firmware[firmware[0] as int + 2..]
  }

  /** An image made of records, uploaded over a working bus: memory is the old memory with each record's bytes
      written in order at its address, and every other byte kept; up to the first record that does not fit, where
      the source panics. On any bus each record lands widened by what the neighbour reads gave. */
  method Upload(d: Device, firmware: seq<byte>, ghost rs: seq<Record>) returns (st: Status, ghost answered: seq<Reads>)
    requires d.Valid() && AllWellFormed(rs) && Reachable(d, Meaning(rs, false, 0))
    requires HasVersion(firmware) ==> Records(firmware) == EncodeAll(rs)
    modifies d`backplaneWindow, d`faults, d.chip, d.iovarBuf
    ensures d.Valid()
    ensures st == BadFirmware <==> !HasVersion(firmware)
    ensures st == BadFirmware ==> d.chip.mem == old(d.chip.mem)
    ensures old(d.Faultless()) ==> d.Faultless()
    ensures HasVersion(firmware) ==>
              Uploaded(old(d.chip.mem), d.chip.mem, Meaning(rs, false, 0), st, answered, old(d.Faultless()))
  {
    hide Lines, NextLine, Uploaded, Meaning, EncodeAll, Reachable;
    answered := [];
    if |firmware| < 3 {
      return BadFirmware, answered;
    }
    var versionLen: nat := firmware[0];
    if versionLen + 2 > |firmware| {
      return BadFirmware, answered;
    }
    var h := new HexFile();
    ParseRecovers(rs, h.State(), false, 0);
    st, answered := UploadLines(d, h, firmware[versionLen + 2..]);
  }

  /** One more record: its widened write is its own write if both neighbour reads were answered. */
  lemma OneMore(m: seq<byte>, ls: seq<Line>, rs: seq<Reads>, l: Line, r: Reads)
    requires |m| == TWO32 && AllData(ls) && |rs| == |ls| && l.Data? && |l.bytes| < LINE_MAX && Fits(l)
    ensures AllData(ls + [l])
    ensures var before := WidenedAll(m, ls, rs);
            WidenedAll(m, ls + [l], rs + [r]) ==
            Overlay(before, WordStart(LineAddress(l)), Widened(before, LineAddress(l), l.bytes, r))
    ensures r == Reads(true, true) && WidenedAll(m, ls, rs) == OverlayAll(m, ls) ==>
              WidenedAll(m, ls + [l], rs + [r]) == OverlayAll(m, ls + [l])
  {
    hide Overlay, Widened;
    assert (ls + [l])[..|ls|] == ls && (rs + [r])[..|rs|] == rs;
    if r == Reads(true, true) {
      RecordExact(WidenedAll(m, ls, rs), LineAddress(l), l.bytes, r);
    }
  }
}
