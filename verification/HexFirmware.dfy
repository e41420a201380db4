/** The Bluetooth firmware's record format (bluetooth.go): a length, a 16-bit address and a type before each
    payload, with two kinds of address records that set the upper part for the data records behind them. */
module HexFirmware {
  import opened Words
  import opened Rings

  const DATA := 0
  const EXT_SEGMENT := 2
  const EXT_ADDRESS := 4
  const ABSOLUTE32 := 5
  const LINE_MAX := 256

  datatype AddrMode = ExtendedMode | SegmentMode | Linear32Mode

  /** Parser state: mode, upper address part and the data buffer, which keeps stale bytes. */
  datatype Parser = Parser(mode: AddrMode, hi: u16, data: seq<byte>)

  datatype Line = End | Data(dst: u32, bytes: seq<byte>)
  datatype Parsed = Parsed(line: Line, rest: seq<byte>, p: Parser)

  function DataAddress(addr: u16, p: Parser, abs: u32): u32 {
    match p.mode
    case ExtendedMode => p.hi * TWO16 + addr
    case SegmentMode => addr + p.hi * 16
    case Linear32Mode => Add32(abs, addr)
  }

  /** The parser after a control record whose payload starts the data buffer. */
  function Control(kind: byte, p: Parser): Parser
    requires |p.data| == LINE_MAX
  {
    if kind == EXT_ADDRESS then p.(hi := Be16(p.data[0], p.data[1]), mode := ExtendedMode)
    else if kind == EXT_SEGMENT then p.(hi := Be16(p.data[0], p.data[1]), mode := SegmentMode)
    else if kind == ABSOLUTE32 then p.(mode := Linear32Mode)
    else p
  }

  function NewBase(kind: byte, data: seq<byte>, abs: u32): u32
    requires |data| == LINE_MAX
  {
    if kind == ABSOLUTE32 then Be32(data[0], data[1], data[2], data[3]) else abs
  }

  function Loaded(p: Parser, payload: seq<byte>): Parser
    requires |p.data| == LINE_MAX && |payload| <= LINE_MAX
  {
    p.(data := payload + p.data[|payload|..])
  }

  /** What one call of btReadFirmwarePatchLine returns and leaves in the parser. */
  function NextLine(fw: seq<byte>, p: Parser, abs: u32): (r: Parsed)
    requires |p.data| == LINE_MAX
    ensures |r.p.data| == LINE_MAX && |r.rest| <= |fw|
    ensures r.line.Data? ==> 0 < |r.line.bytes| < LINE_MAX && |r.rest| < |fw|
    decreases |fw|
  {
    if |fw| < 4 then Parsed(End, fw, p)
    else if fw[0] == 0 || |fw| < 4 + fw[0] as int then Parsed(End, fw[4..], p)
    else
      var n: nat := fw[0];
      var payload, rest := fw[4..4 + n], fw[4 + n..];
      var q := Loaded(p, payload);
      if fw[3] == DATA then Parsed(Line.Data(DataAddress(Be16(fw[1], fw[2]), q, abs), payload), rest, q)
      else NextLine(rest, Control(fw[3], q), NewBase(fw[3], q.data, abs))
  }

  /** All data lines in order; every call starts again with base 0 for absolute addresses. */
  function Lines(fw: seq<byte>, p: Parser): seq<Line>
    requires |p.data| == LINE_MAX
    decreases |fw|
  {
    var r := NextLine(fw, p, 0);
    if r.line.End? then [] else [r.line] + Lines(r.rest, r.p)
  }

  class HexFile {
    var addrMode: AddrMode
    var hiAddr: u16
    var dstAddr: u32
    const data: array<byte>

    ghost predicate Valid() {
      data.Length == LINE_MAX
    }

    function State(): Parser
      reads this, data
    {
      Parser(addrMode, hiAddr, data[..])
    }

    constructor ()
      ensures Valid() && fresh(data) && State() == Parser(ExtendedMode, 0, data[..])
    {
      addrMode, hiAddr, dstAddr := ExtendedMode, 0, 0;
      data := new byte[LINE_MAX];
    }

    /** The bytes of a data line are at the front of the data buffer. */
    method ReadPatchLine(firmware: seq<byte>) returns (numBytes: nat, rest: seq<byte>)
      requires Valid()
      modifies this, data
      ensures var r := NextLine(firmware, old(State()), 0);
              && State() == r.p && rest == r.rest
              && (r.line.End? <==> numBytes == 0)
              && (r.line.Data? ==> dstAddr == r.line.dst && numBytes < LINE_MAX
                                   && data[..numBytes] == r.line.bytes)
    {
      var abs: u32 := 0;
      var fw := firmware;
      hide NextLine, DataAddress, Lines, Loaded, Control, NewBase, Be16;
      while true
        invariant NextLine(firmware, old(State()), 0) == NextLine(fw, State(), abs)
        decreases |fw|
      {
        if |fw| < 4 {
          NextLineEnd(fw, State(), abs);
          return 0, fw;
        }
        var n: nat := fw[0];
        var addr, lineType := Be16(fw[1], fw[2]), fw[3];
        if n == 0 || |fw| - 4 < n {
          NextLineEnd(fw, State(), abs);
          return 0, fw[4..];
        }
        NextLineUnfold(fw, State(), abs);
        Load(fw[4..4 + n]);
        if lineType == DATA {
          dstAddr := DataAddress(addr, State(), abs);
          return n, fw[4 + n..];
        }
        abs := Take(lineType, abs);
        fw := fw[4 + n..];
      }
    }

    method Load(payload: seq<byte>)
      requires Valid() && |payload| < LINE_MAX
      modifies data
      ensures State() == Loaded(old(State()), payload) && data[..|payload|] == payload
    {
      CopyIn(data, 0, payload);
    }

    /** Acts on a control record whose payload is loaded; returns the base for absolute addresses. */
    method Take(kind: byte, abs: u32) returns (base: u32)
      requires Valid() && kind != DATA
      modifies this`addrMode, this`hiAddr
      ensures State() == Control(kind, old(State()))
      ensures base == NewBase(kind, data[..], abs)
    {
      base := abs;
      if kind == EXT_ADDRESS || kind == EXT_SEGMENT {
        hiAddr := Be16(data[0], data[1]);
        addrMode := if kind == EXT_ADDRESS then ExtendedMode else SegmentMode;
      } else if kind == ABSOLUTE32 {
        base := Be32(data[0], data[1], data[2], data[3]);
        addrMode := Linear32Mode;
      }
    }
  }

  lemma NextLineEnd(fw: seq<byte>, p: Parser, abs: u32)
    requires |p.data| == LINE_MAX && (|fw| < 4 || fw[0] == 0 || |fw| < 4 + fw[0] as int)
    ensures NextLine(fw, p, abs) == Parsed(End, if |fw| < 4 then fw else fw[4..], p)
  {
  }

  lemma NextLineUnfold(fw: seq<byte>, p: Parser, abs: u32)
    requires |p.data| == LINE_MAX && |fw| >= 4 && 0 < fw[0] as int <= |fw| - 4
    ensures var n: nat := fw[0];
            var payload, rest := fw[4..4 + n], fw[4 + n..];
            var q := Loaded(p, payload);
            NextLine(fw, p, abs) ==
            if fw[3] == DATA then Parsed(Line.Data(DataAddress(Be16(fw[1], fw[2]), q, abs), payload), rest, q)
            else NextLine(rest, Control(fw[3], q), NewBase(fw[3], q.data, abs))
  {
  }

  // ---------------------------------------------------------------- the records of the format

  datatype Record =
    | Extended(hi: u16)
    | Segment(hi: u16)
    | Bytes(addr: u16, bytes: seq<byte>)
    | Other(kind: byte, bytes: seq<byte>)

  ghost predicate WellFormed(r: Record) {
    match r
    case Bytes(_, bytes) => 0 < |bytes| < LINE_MAX
    case Other(kind, bytes) => kind !in {DATA, EXT_SEGMENT, EXT_ADDRESS, ABSOLUTE32} && 0 < |bytes| < LINE_MAX
    case _ => true
  }

  function Encode(r: Record): seq<byte>
    requires WellFormed(r)
  {
    match r
    case Extended(hi) => [2, 0, 0, EXT_ADDRESS, Hi(hi), Lo(hi)]
    case Segment(hi) => [2, 0, 0, EXT_SEGMENT, Hi(hi), Lo(hi)]
    case Bytes(addr, bytes) => [|bytes|, Hi(addr), Lo(addr), DATA] + bytes
    case Other(kind, bytes) => [|bytes|, 0, 0, kind] + bytes
  }

  ghost predicate AllWellFormed(rs: seq<Record>) {
    forall i | 0 <= i < |rs| :: WellFormed(rs[i])
  }

  function EncodeAll(rs: seq<Record>): seq<byte>
    requires AllWellFormed(rs)
  {
    if rs == [] then [0, 0, 0, 1] else Encode(rs[0]) + EncodeAll(rs[1..])
  }

  /** What the records mean: each data record with the upper address in force. */
  function Meaning(rs: seq<Record>, segment: bool, hi: u16): seq<Line> {
    if rs == [] then []
    else
      match rs[0]
      case Extended(h) => Meaning(rs[1..], false, h)
      case Segment(h) => Meaning(rs[1..], true, h)
      case Bytes(addr, bytes) =>
        [Line.Data(if segment then hi * 16 + addr else hi * TWO16 + addr, bytes)] + Meaning(rs[1..], segment, hi)
      case Other(_, _) => Meaning(rs[1..], segment, hi)
  }

  ghost predicate InForce(p: Parser, segment: bool, hi: u16) {
    && |p.data| == LINE_MAX && p.hi == hi
    && p.mode == if segment then SegmentMode else ExtendedMode
  }

  /** A control record only changes the parser; the line behind it is the next line. */
  lemma ControlStep(head: seq<byte>, tail: seq<byte>, p: Parser)
    requires |p.data| == LINE_MAX && |head| > 4 && head[0] as int == |head| - 4
    requires head[3] !in {DATA, ABSOLUTE32}
    ensures Lines(head + tail, p) == Lines(tail, Control(head[3], Loaded(p, head[4..])))
  {
    var fw := head + tail;
    var n: nat := fw[0];
    assert fw[4..4 + n] == head[4..] && fw[4 + n..] == tail;
    var q := Control(head[3], Loaded(p, head[4..]));
    assert NextLine(fw, p, 0) == NextLine(tail, q, 0);
    LinesUnfold(fw, p);
    LinesUnfold(tail, q);
  }

  lemma LinesUnfold(fw: seq<byte>, p: Parser)
    requires |p.data| == LINE_MAX
    ensures var r := NextLine(fw, p, 0);
            Lines(fw, p) == if r.line.End? then [] else [r.line] + Lines(r.rest, r.p)
  {
  }

  lemma DataStep(addr: u16, bytes: seq<byte>, tail: seq<byte>, p: Parser)
    requires |p.data| == LINE_MAX && 0 < |bytes| < LINE_MAX
    ensures Lines(Encode(Record.Bytes(addr, bytes)) + tail, p) ==
            [Line.Data(DataAddress(addr, p, 0), bytes)] + Lines(tail, Loaded(p, bytes))
  {
    hide Lines;
    var head: seq<byte> := [|bytes|, Hi(addr), Lo(addr), DATA] + bytes;
    var fw := head + tail;
    DataLine(fw, addr, bytes, tail, p);
    LinesUnfold(fw, p);
  }

  lemma DataLine(fw: seq<byte>, addr: u16, bytes: seq<byte>, tail: seq<byte>, p: Parser)
    requires |p.data| == LINE_MAX && 0 < |bytes| < LINE_MAX
    requires fw == [|bytes|, Hi(addr), Lo(addr), DATA] + bytes + tail
    ensures NextLine(fw, p, 0) == Parsed(Line.Data(DataAddress(addr, p, 0), bytes), tail, Loaded(p, bytes))
  {
    hide DataAddress;
    var n: nat := fw[0];
    assert fw[4..4 + n] == bytes && fw[4 + n..] == tail;
    assert Be16(Bytes16(addr)[0], Bytes16(addr)[1]) == addr;
    SameAddress(addr, p, Loaded(p, bytes), 0);
  }

  lemma SameAddress(addr: u16, p: Parser, q: Parser, abs: u32)
    requires p.mode == q.mode && p.hi == q.hi
    ensures DataAddress(addr, p, abs) == DataAddress(addr, q, abs)
  {
  }

  /** An address record puts its upper part in force. */
  lemma AddressStep(kind: byte, h: u16, tail: seq<byte>, p: Parser) returns (q: Parser)
    requires |p.data| == LINE_MAX && kind in {EXT_ADDRESS, EXT_SEGMENT}
    ensures InForce(q, kind == EXT_SEGMENT, h)
    ensures Lines([2, 0, 0, kind, Hi(h), Lo(h)] + tail, p) == Lines(tail, q)
  {
    hide Lines, NextLine;
    var head: seq<byte> := [2, 0, 0, kind, Hi(h), Lo(h)];
    ControlStep(head, tail, p);
    assert head[4..] == Bytes16(h);
    q := Control(kind, Loaded(p, Bytes16(h)));
  }

  lemma OtherStep(kind: byte, bytes: seq<byte>, tail: seq<byte>, p: Parser)
    requires |p.data| == LINE_MAX && WellFormed(Other(kind, bytes))
    ensures Lines([|bytes|, 0, 0, kind] + bytes + tail, p) == Lines(tail, Loaded(p, bytes))
  {
    hide Lines, NextLine;
    var head: seq<byte> := [|bytes|, 0, 0, kind] + bytes;
    ControlStep(head, tail, p);
    assert head[4..] == bytes;
  }

  /** The parser recovers exactly what any list of extended, segment and data records means. */
  lemma {:induction false} ParseRecovers(rs: seq<Record>, p: Parser, segment: bool, hi: u16)
    requires AllWellFormed(rs) && InForce(p, segment, hi)
    ensures Lines(EncodeAll(rs), p) == Meaning(rs, segment, hi)
    decreases |rs|
  {
    hide NextLine, Lines, Control, Loaded;
    if rs == [] {
      NoLines(p);
    } else {
      var tail := EncodeAll(rs[1..]);
      assert WellFormed(rs[0]);
      match rs[0] {
        case Extended(h) =>
          var q := AddressStep(EXT_ADDRESS, h, tail, p);
          ParseRecovers(rs[1..], q, false, h);
        case Segment(h) =>
          var q := AddressStep(EXT_SEGMENT, h, tail, p);
          ParseRecovers(rs[1..], q, true, h);
        case Bytes(addr, bytes) =>
          DataStep(addr, bytes, tail, p);
          StillInForce(p, bytes, segment, hi);
          ParseRecovers(rs[1..], Loaded(p, bytes), segment, hi);
        case Other(kind, bytes) =>
          OtherStep(kind, bytes, tail, p);
          StillInForce(p, bytes, segment, hi);
          ParseRecovers(rs[1..], Loaded(p, bytes), segment, hi);
      }
    }
  }

  lemma NoLines(p: Parser)
    requires |p.data| == LINE_MAX
    ensures Lines([0, 0, 0, 1], p) == []
  {
  }

  lemma StillInForce(p: Parser, bytes: seq<byte>, segment: bool, hi: u16)
    requires InForce(p, segment, hi) && |bytes| < LINE_MAX
    ensures InForce(Loaded(p, bytes), segment, hi)
  {
  }
}
