/** The SDPCM sender and receive dispatcher (ioctl.go, wifi.go, protocol.go). A sender that waits for credit
    polls; a poll may deliver a frame to the network stack; and the stack may send again from there. */
module Sdpcm {
  import opened Words
  import opened Credit
  import opened Rings
  import Bus

  const SDPCM_HEADER := 12
  const CDC_HEADER := 16
  const BDC_HEADER := 4
  const DATA_PADDING := 2
  const BUF := 2048
  const CHAN_CONTROL := 0
  const CHAN_DATA := 2

  datatype Header = Header(size: u16, sizeCom: u16, num: byte, chanAndFlags: byte, nextLength: byte,
                           headerLength: byte, wirelessFlow: byte, busDataCredit: byte,
                           reserved0: byte, reserved1: byte)

  function Put(h: Header): (s: seq<byte>)
    ensures |s| == SDPCM_HEADER
  {
    [Lo(h.size), Hi(h.size), Lo(h.sizeCom), Hi(h.sizeCom), h.num, h.chanAndFlags, h.nextLength,
     h.headerLength, h.wirelessFlow, h.busDataCredit, h.reserved0, h.reserved1]
  }

  function Parse(s: seq<byte>): Header
    requires |s| >= SDPCM_HEADER
  {
    Header(Be16(s[1], s[0]), Be16(s[3], s[2]), s[4], s[5], s[6], s[7], s[8], s[9], s[10], s[11])
  }

  datatype CdcHeader = CdcHeader(cmd: u32, length: u32, flags: u16, id: u16, status: u32)

  function PutCdc(h: CdcHeader): (s: seq<byte>)
    ensures |s| == CDC_HEADER
  {
    Le32(h.cmd) + Le32(h.length) + [Lo(h.flags), Hi(h.flags), Lo(h.id), Hi(h.id)] + Le32(h.status)
  }

  function ParseCdc(s: seq<byte>): CdcHeader
    requires |s| >= CDC_HEADER
  {
    CdcHeader(Be32(s[3], s[2], s[1], s[0]), Be32(s[7], s[6], s[5], s[4]),
              Be16(s[9], s[8]), Be16(s[11], s[10]), Be32(s[15], s[14], s[13], s[12]))
  }

  lemma PutThenParseCdc(h: CdcHeader, rest: seq<byte>)
    ensures ParseCdc(PutCdc(h) + rest) == h
  {
  }

  function Padded(totalLen: nat): (n: nat)
    ensures totalLen <= n < totalLen + 4 && n % 4 == 0
  {
    (totalLen + 3) / 4 * 4
  }

  /** The size a frame of this padded length is announced with (cmd_word in wlan_write). */
  function Announced(padded: nat): nat {
    Bus.Decode(Bus.CmdWord(true, true, Bus.FUNC_WLAN, 0, padded)).sz
  }

  /** Every ioctl that passes the length guard goes out under its own size, except with 2017 to 2020 bytes of data:
      then the chip is told zero. */
  lemma IoctlSizeExact(n: nat)
    ensures Padded(28 + n) <= BUF <==> n <= 2020
    ensures Padded(28 + n) <= BUF ==> (Announced(Padded(28 + n)) == Padded(28 + n) <==> n <= 2016)
    ensures 2017 <= n <= 2020 ==> Announced(Padded(28 + n)) == 0
  {
    Bus.SizeExact(true, true, Bus.FUNC_WLAN, 0, Padded(28 + n));
    PaddedFull(28 + n);
    hide Bus.Decode, Bus.CmdWord;
  }

  /** The same for Ethernet frames: 2027 to 2030 bytes pass the guard and are announced as zero. */
  lemma FrameSizeExact(n: nat)
    ensures Padded(18 + n) <= BUF <==> n <= 2030
    ensures Padded(18 + n) <= BUF ==> (Announced(Padded(18 + n)) == Padded(18 + n) <==> n <= 2026)
    ensures 2027 <= n <= 2030 ==> Announced(Padded(18 + n)) == 0
  {
    Bus.SizeExact(true, true, Bus.FUNC_WLAN, 0, Padded(18 + n));
    PaddedFull(18 + n);
    hide Bus.Decode, Bus.CmdWord;
  }

  lemma PaddedFull(n: nat)
    ensures Padded(n) <= 2048 <==> n <= 2048
    ensures Padded(n) < 2048 <==> n <= 2044
  {
  }

  function HeaderFor(totalLen: u16, num: byte, chan: byte, headerLength: byte): Header {
    Header(totalLen, 0xFFFF - totalLen, num, chan, 0, headerLength, 0, 0, 0, 0)
  }

  /** A data frame as it goes over the bus: header, two bytes of padding, BDC version 2, the Ethernet frame,
      zeros up to size. */
  function DataFrame(num: byte, frame: seq<byte>, size: nat): (s: seq<byte>)
    requires 18 + |frame| <= size <= BUF
    ensures |s| == size
  {
    Put(HeaderFor(18 + |frame|, num, CHAN_DATA, SDPCM_HEADER + DATA_PADDING)) + [0, 0, 0x20, 0, 0, 0] + frame
    + Zeros(size - 18 - |frame|)
  }

  function ControlFrame(num: byte, cdc: seq<byte>, data: seq<byte>, size: nat): (s: seq<byte>)
    requires |cdc| == CDC_HEADER && 28 + |data| <= size <= BUF
    ensures |s| == size
  {
    Put(HeaderFor(28 + |data|, num, CHAN_CONTROL, SDPCM_HEADER)) + cdc + data
    + Zeros(size - 28 - |data|)
  }

  /** Two pieces copied one after the other into a zeroed buffer behind a prefix. */
  lemma CopiedTwice(b0: seq<byte>, b1: seq<byte>, b2: seq<byte>, head: seq<byte>, gap: nat,
                    x: seq<byte>, y: seq<byte>, size: nat)
    requires |head| + gap + |x| + |y| <= size <= |b0|
    requires b0[..size] == head + Zeros(size - |head|)
    requires var at := |head| + gap; b1 == b0[..at] + x + b0[at + |x|..]
    requires var at := |head| + gap + |x|; b2 == b1[..at] + y + b1[at + |y|..]
    ensures b2[..size] == head + Zeros(gap) + x + y + Zeros(size - |head| - gap - |x| - |y|)
  {
    var r := head + Zeros(gap) + x + y + Zeros(size - |head| - gap - |x| - |y|);
    forall i | 0 <= i < size
      ensures b2[i] == r[i]
    {
      assert b0[i] == b0[..size][i];
    }
  }

  lemma PutThenParse(h: Header, rest: seq<byte>)
    ensures Parse(Put(h) + rest) == h
  {
  }

  /** x XOR y == 0xFFFF */
  predicate Complementary(x: u16, y: u16) {
    x + y == 0xFFFF
  }

  /** What the bus and the network stack do, poll by poll. A delivered packet comes with what the receive
      callback does if the packet reaches it; a request comes with the polls made while it waits. */
  datatype PollResult = BusError | Idle | Packet(pkt: seq<byte>, reaction: seq<Request>)
  datatype Request =
    | SendFrame(frame: seq<byte>, polls: seq<PollResult>, busOk: bool)
    | SendIoctl(kind: u16, cmd: u32, iface: u16, data: seq<byte>,
                polls: seq<PollResult>, busOk: bool, answers: seq<PollResult>)
    | PollOnly(poll: PollResult)

  /** No ioctl is sent from within: what the network stack does, which only sends frames. */
  ghost predicate FramesOnly(p: PollResult) {
    p.Packet? ==> forall k | 0 <= k < |p.reaction| :: OnlyFrames(p.reaction[k])
  }

  ghost predicate OnlyFrames(r: Request) {
    match r
    case SendFrame(_, polls, _) => forall k | 0 <= k < |polls| :: FramesOnly(polls[k])
    case SendIoctl(_, _, _, _, _, _, _) => false
    case PollOnly(p) => FramesOnly(p)
  }

  ghost predicate AllFramesOnly(polls: seq<PollResult>) {
    forall k | 0 <= k < |polls| :: FramesOnly(polls[k])
  }

  /** An answer: its id, its status, and the data it leaves for the waiter. */
  datatype Answer = Answer(id: u16, status: u32, data: seq<byte>)

  /** The network stack sends nothing at all. */
  ghost predicate AllQuiet(polls: seq<PollResult>) {
    forall k | 0 <= k < |polls| && polls[k].Packet? :: polls[k].reaction == []
  }

  /** Whether an answer is awaited, to which id, what was left for the waiter, and all answers so far. */
  datatype Waiting = Waiting(pending: bool, id: u16, resp: seq<byte>, done: seq<Answer>)

  /** Nothing happened, or the awaited answer came. */
  ghost predicate Awaits(a: Waiting, b: Waiting) {
    b == a || (a.pending && CameFor(a, b))
  }

  /** One more answer, to this id. */
  ghost predicate AnswerTo(a: seq<Answer>, b: seq<Answer>, id: u16) {
    |b| == |a| + 1 && b[..|a|] == a && b[|a|].id == id
  }

  ghost predicate CameFor(a: Waiting, b: Waiting) {
    && !b.pending && b.id == a.id && |b.done| == |a.done| + 1 && b.done[..|a.done|] == a.done
    && var x := b.done[|a.done|];
       x.id == a.id && b.resp == if x.data != [] then x.data else a.resp
  }

  /** The header of a request; a kind and an interface that fit their fields share the flags word. */
  ghost predicate CdcSays(s: seq<byte>, r: Request, id: u16)
    requires |s| >= CDC_HEADER && r.SendIoctl?
  {
    var h := ParseCdc(s);
    && h.cmd == r.cmd && h.length == |r.data| && h.id == id && h.status == 0
    && (r.kind < 0x1000 && r.iface < 0x10 ==> h.flags == r.kind + r.iface * 0x1000)
  }

  /** The bitwise or of two n-bit numbers. */
  function Or(n: nat, x: nat, y: nat): (r: nat)
    requires x < Pow2(n) && y < Pow2(n)
    ensures r < Pow2(n)
  {
    if n == 0 then 0 else (if x % 2 == 1 || y % 2 == 1 then 1 else 0) + 2 * Or(n - 1, x / 2, y / 2)
  }

  /** Numbers that share no bit are added up. */
  lemma {:induction false} OrApart(n: nat, k: nat, x: nat, h: nat)
    requires k <= n && x < Pow2(k) && x < Pow2(n) && h * Pow2(k) < Pow2(n)
    ensures Or(n, x, h * Pow2(k)) == x + h * Pow2(k)
  {
    if n == 0 {
    } else if k == 0 {
      OrApart(n - 1, 0, 0, h / 2);
    } else {
      var z := h * Pow2(k - 1);
      assert h * Pow2(k) == 2 * z;
      OrApart(n - 1, k - 1, x / 2, h);
    }
  }

  lemma Sixteen()
    ensures Pow2(12) == 0x1000 && Pow2(16) == TWO16
  {
    assert Pow2(4) == 16 && Pow2(8) == 256;
  }

  /** The CDC flags word: the kind, or the interface shifted by twelve bits. */
  function IoctlFlags(kind: u16, iface: u16): u16 {
    Sixteen();
    Or(16, kind, iface * 0x1000 % TWO16)
  }

  lemma FlagsAddUp(kind: u16, iface: u16)
    requires kind < 0x1000 && iface < 0x10
    ensures IoctlFlags(kind, iface) == kind + iface * 0x1000
  {
    Sixteen();
    OrApart(16, 12, kind, iface);
    hide Or, Pow2;
  }

  /** A control frame with this request under this id: SDPCM header, CDC header, data. */
  ghost predicate IsIoctl(frame: seq<byte>, r: Request, id: u16)
    requires r.SendIoctl?
  {
    && 28 + |r.data| <= |frame| <= BUF
    && !Malformed(frame) && Parse(frame).size == 28 + |r.data|
    && Parse(frame).chanAndFlags == CHAN_CONTROL && Parse(frame).headerLength == SDPCM_HEADER
    && CdcSays(frame[SDPCM_HEADER..], r, id)
    && frame[28..28 + |r.data|] == r.data
  }

  /** What EncodeIoctl leaves in the buffer is read back field by field. */
  lemma ControlReads(num: byte, cdc: CdcHeader, data: seq<byte>, size: nat)
    requires 28 + |data| <= size <= BUF
    ensures var s := ControlFrame(num, PutCdc(cdc), data, size);
            && Parse(s) == HeaderFor(28 + |data|, num, CHAN_CONTROL, SDPCM_HEADER)
            && ParseCdc(s[SDPCM_HEADER..]) == cdc && s[28..28 + |data|] == data
  {
    var h := HeaderFor(28 + |data|, num, CHAN_CONTROL, SDPCM_HEADER);
    var rest := data + Zeros(size - 28 - |data|);
    hide Put, PutCdc, Parse, ParseCdc, HeaderFor, Zeros;
    var s := ControlFrame(num, PutCdc(cdc), data, size);
    assert s == Put(h) + (PutCdc(cdc) + rest);
    PutThenParse(h, PutCdc(cdc) + rest);
    assert s[SDPCM_HEADER..] == PutCdc(cdc) + rest;
    PutThenParseCdc(cdc, rest);
  }

  /** Where the data of an answer ends; the length field is added in the target's 32-bit int. */
  function ResponseEnd(payload: seq<byte>): (end: int)
    ensures end <= |payload|
  {
    if |payload| < CDC_HEADER then 0
    else Min(AsInt(Add32(CDC_HEADER, ParseCdc(payload).length)), |payload|)
  }

  /** The data an answer leaves: none with a status, none if its length says so. */
  function ResponseData(payload: seq<byte>): seq<byte> {
    if |payload| >= CDC_HEADER && ParseCdc(payload).status == 0 && ResponseEnd(payload) > CDC_HEADER
    then payload[CDC_HEADER..ResponseEnd(payload)] else []
  }

  /** An answer as the chip writes it: with status zero its data is what follows the header, up to the length given,
      whatever comes behind. */
  lemma ResponseReads(h: CdcHeader, data: seq<byte>, rest: seq<byte>)
    requires h.length == |data| && CDC_HEADER + |data| < 0x8000_0000
    ensures ResponseData(PutCdc(h) + data + rest) == if h.status == 0 then data else []
  {
    hide PutCdc, ParseCdc;
    var s := PutCdc(h) + data + rest;
    assert s == PutCdc(h) + (data + rest);
    PutThenParseCdc(h, data + rest);
    assert ParseCdc(s) == h;
    assert ResponseEnd(s) == CDC_HEADER + |data|;
    assert s[CDC_HEADER..CDC_HEADER + |data|] == data;
  }

  /** The frame a data payload carries for the network stack, behind its BDC header and padding. */
  function EthFrame(payload: seq<byte>): Option<seq<byte>> {
    if |payload| < BDC_HEADER then None
    else
      var ethStart := BDC_HEADER + (payload[3] as int) * 4;
      if ethStart >= |payload| then None else Some(payload[ethStart..])
  }

  /** Too short for a header, or a size that does not match its complement. */
  predicate Malformed(pkt: seq<byte>) {
    |pkt| < SDPCM_HEADER || !Complementary(Parse(pkt).size, Parse(pkt).sizeCom)
  }

  /** What the driver sends, its receiver reads: the frame, with the zeros it was padded with. */
  lemma DataReads(num: byte, frame: seq<byte>, size: nat)
    requires 18 + |frame| <= size <= BUF && size > 18
    ensures var s := DataFrame(num, frame, size);
            && !Malformed(s) && Parse(s).chanAndFlags == CHAN_DATA && Parse(s).num == num
            && Parse(s).headerLength <= |s|
            && EthFrame(s[Parse(s).headerLength..]) == Some(frame + Zeros(size - 18 - |frame|))
  {
    var h := HeaderFor(18 + |frame|, num, CHAN_DATA, SDPCM_HEADER + DATA_PADDING);
    var body := frame + Zeros(size - 18 - |frame|);
    assert DataFrame(num, frame, size) == Put(h) + ([0, 0, 0x20, 0, 0, 0] + body);
    PutThenParse(h, [0, 0, 0x20, 0, 0, 0] + body);
    hide Put, Parse;
    assert DataFrame(num, frame, size)[14..] == [0x20, 0, 0, 0] + body;
  }

  /** Behind any BDC header, as many words are skipped as its last byte says. */
  lemma EthFrameReads(head: seq<byte>, skipped: seq<byte>, frame: seq<byte>)
    requires |head| == BDC_HEADER && |skipped| == (head[3] as int) * 4
    ensures EthFrame(head + skipped + frame) == if frame == [] then None else Some(frame)
  {
    assert (head + skipped + frame)[|head| + |skipped|..] == frame;
  }

  /** A control payload with the awaited id. */
  predicate Answers(w: Waiting, payload: seq<byte>) {
    w.pending && |payload| >= CDC_HEADER && ParseCdc(payload).id == w.id
  }

  function Next16(x: u16): u16 {
    if x == 0xFFFF then 0 else x + 1
  }

  class Device {
    var sdpcmSeq: byte
    var sdpcmSeqMax: byte
    var ioctlID: u16
    var ioctlPending: bool
    var ioctlRespID: u16
    var ioctlResp: seq<byte>
    const txBuf: array<byte>

    /** Headers encoded and credits taken up, in the order the code does them. */
    ghost var log: seq<Entry>
    /** The answers taken, and the frames handed to the network stack. */
    ghost var done: seq<Answer>
    ghost var delivered: seq<seq<byte>>
    /** The frames handed to the bus. */
    ghost var wire: seq<seq<byte>>

    ghost function Io(): Waiting
      reads this
    {
      Waiting(ioctlPending, ioctlRespID, ioctlResp, done)
    }

    ghost predicate Valid()
      reads this
    {
      && txBuf.Length == BUF
      && Legal(log)
      && Replay(log) == Window(sdpcmSeq, sdpcmSeqMax)
    }

    constructor ()
      ensures Valid() && log == [] && done == [] && delivered == [] && wire == [] && fresh(txBuf)
    {
      sdpcmSeq, sdpcmSeqMax := 0, 1;
      ioctlID, ioctlPending, ioctlRespID, ioctlResp := 0, false, 0, [];
      txBuf := new byte[BUF];
      log, done, delivered, wire := [], [], [], [];
    }

    method WaitCredit(polls: seq<PollResult>) returns (ok: bool)
      requires Valid()
      modifies this, txBuf
      ensures Valid() && old(log) <= log && old(delivered) <= delivered && old(wire) <= wire
      ensures ok ==> sdpcmSeq != sdpcmSeqMax
      ensures old(sdpcmSeq != sdpcmSeqMax) && |polls| > 0 ==> ok && log == old(log)
      ensures AllFramesOnly(polls) ==> Awaits(old(Io()), Io()) && ioctlID == old(ioctlID)
      decreases polls
    {
      for k := 0 to |polls|
        invariant Valid() && old(log) <= log && old(delivered) <= delivered && old(wire) <= wire
        invariant old(sdpcmSeq != sdpcmSeqMax) ==> k == 0
        invariant k == 0 ==> log == old(log) && sdpcmSeq == old(sdpcmSeq) && sdpcmSeqMax == old(sdpcmSeqMax)
        invariant AllFramesOnly(polls) ==> Awaits(old(Io()), Io()) && ioctlID == old(ioctlID)
      {
        if sdpcmSeq != sdpcmSeqMax {
          return true;
        }
        var alive := Poll(polls[k]);
        if !alive {
          return false;
        }
      }
      return false;
    }

    /** Clears the buffer and puts a header with the next sequence number; the caller holds credit. */
    method Encode(totalLen: u16, size: nat, chan: byte, headerLength: byte)
      requires Valid() && SDPCM_HEADER <= size <= BUF
      requires sdpcmSeq != sdpcmSeqMax
      modifies this`sdpcmSeq, this`log, txBuf
      ensures Valid() && log == old(log) + [Encoded(old(sdpcmSeq))]
      ensures txBuf[..size] ==
              Put(HeaderFor(totalLen, old(sdpcmSeq), chan, headerLength)) + Zeros(size - SDPCM_HEADER)
    {
      forall i | 0 <= i < size {
        txBuf[i] := 0;
      }
      CopyIn(txBuf, 0, Put(HeaderFor(totalLen, sdpcmSeq, chan, headerLength)));
      ghost var before := log;
      log := log + [Encoded(sdpcmSeq)];
      assert log[..|log| - 1] == before;
      sdpcmSeq := Add8(sdpcmSeq, 1);
    }

    /** Exactly this frame is handed to the bus: what SendEth waited for cannot disturb it. */
    method SendEth(r: Request) returns (ok: bool)
      requires Valid() && r.SendFrame?
      modifies this, txBuf
      ensures Valid() && old(log) <= log && old(delivered) <= delivered && old(wire) <= wire
      ensures OnlyFrames(r) ==> Awaits(old(Io()), Io()) && ioctlID == old(ioctlID)
      ensures ok ==> 18 + |r.frame| <= Padded(18 + |r.frame|) <= BUF
                     && |log| > |old(log)| && log[|log| - 1].Encoded? && |wire| > |old(wire)|
                     && wire[|wire| - 1] == DataFrame(log[|log| - 1].num, r.frame, Padded(18 + |r.frame|))
      decreases r, 0
    {
      var size := Padded(18 + |r.frame|);
      if size > BUF {
        return false;
      }
      var credit := WaitCredit(r.polls);
      if !credit {
        return false;
      }
      EncodeData(r.frame, size);
      wire := wire + [txBuf[..size]];
      return r.busOk;
    }

    method EncodeData(frame: seq<byte>, size: nat)
      requires Valid() && sdpcmSeq != sdpcmSeqMax && 18 + |frame| <= size <= BUF
      modifies this`sdpcmSeq, this`log, txBuf
      ensures Valid() && log == old(log) + [Encoded(old(sdpcmSeq))]
      ensures txBuf[..size] == DataFrame(old(sdpcmSeq), frame, size)
    {
      hide Put, HeaderFor;
      ghost var head := Put(HeaderFor(18 + |frame|, sdpcmSeq, CHAN_DATA, SDPCM_HEADER + DATA_PADDING));
      Encode(18 + |frame|, size, CHAN_DATA, SDPCM_HEADER + DATA_PADDING);
      ghost var b0 := txBuf[..];
      CopyIn(txBuf, SDPCM_HEADER + DATA_PADDING, [0x20, 0, 0, 0]);
      ghost var b1 := txBuf[..];
      CopyIn(txBuf, SDPCM_HEADER + DATA_PADDING + BDC_HEADER, frame);
      CopiedTwice(b0, b1, txBuf[..], head, DATA_PADDING, [0x20, 0, 0, 0], frame, size);
      assert Zeros(DATA_PADDING) + [0x20, 0, 0, 0] == [0, 0, 0x20, 0, 0, 0];
    }

    method EncodeIoctl(cdc: seq<byte>, data: seq<byte>, size: nat)
      requires |cdc| == CDC_HEADER
      requires Valid() && sdpcmSeq != sdpcmSeqMax && 28 + |data| <= size <= BUF
      modifies this`sdpcmSeq, this`log, txBuf
      ensures Valid() && log == old(log) + [Encoded(old(sdpcmSeq))]
      ensures txBuf[..size] == ControlFrame(old(sdpcmSeq), cdc, data, size)
    {
      hide Put, HeaderFor;
      ghost var head := Put(HeaderFor(28 + |data|, sdpcmSeq, CHAN_CONTROL, SDPCM_HEADER));
      Encode(28 + |data|, size, CHAN_CONTROL, SDPCM_HEADER);
      ghost var b0 := txBuf[..];
      CopyIn(txBuf, SDPCM_HEADER, cdc);
      ghost var b1 := txBuf[..];
      CopyIn(txBuf, SDPCM_HEADER + CDC_HEADER, data);
      CopiedTwice(b0, b1, txBuf[..], head, 0, cdc, data, size);
    }

    /** at is where its frame stands among those handed to the bus. */
    method DoIoctl(r: Request) returns (ok: bool, resp: seq<byte>, ghost at: nat)
      requires Valid() && r.SendIoctl?
      modifies this, txBuf
      ensures Valid() && old(log) <= log && old(delivered) <= delivered && old(wire) <= wire
      ensures ok ==> !ioctlPending
      ensures ok ==> |old(wire)| <= at < |wire| && |wire[at]| == Padded(28 + |r.data|)
                     && IsIoctl(wire[at], r, Next16(old(ioctlID)))
      ensures ok && AllFramesOnly(r.polls) && AllFramesOnly(r.answers) ==>
                && ioctlID == Next16(old(ioctlID)) && ioctlRespID == ioctlID
                && done != [] && done[|done| - 1].id == ioctlID && resp == done[|done| - 1].data
      decreases r, 0
    {
      hide IsIoctl;
      at := 0;
      ioctlID := Next16(ioctlID);
      var id := ioctlID;
      var size := Padded(28 + |r.data|);
      if size > BUF {
        return false, [], at;
      }
      var credit := WaitCredit(r.polls);
      if !credit {
        return false, [], at;
      }
      at := |wire|;
      PutIoctl(r, id, size);
      if !r.busOk {
        return false, [], at;
      }
      ok, resp := WaitResponse(id, r.answers);
    }

    /** Builds the control frame of a request and hands it to the bus. */
    method PutIoctl(r: Request, id: u16, size: nat)
      requires Valid() && sdpcmSeq != sdpcmSeqMax && r.SendIoctl? && 28 + |r.data| <= size <= BUF
      modifies this`sdpcmSeq, this`log, this`wire, txBuf
      ensures Valid() && log == old(log) + [Encoded(old(sdpcmSeq))]
      ensures |wire| == |old(wire)| + 1 && wire[..|old(wire)|] == old(wire)
      ensures |wire[|old(wire)|]| == size && IsIoctl(wire[|old(wire)|], r, id)
    {
      hide IoctlFlags, PutCdc, ControlFrame, Parse, ParseCdc;
      var cdc := CdcHeader(r.cmd, |r.data|, IoctlFlags(r.kind, r.iface), id, 0);
      if r.kind < 0x1000 && r.iface < 0x10 {
        FlagsAddUp(r.kind, r.iface);
      }
      ghost var num := sdpcmSeq;
      EncodeIoctl(PutCdc(cdc), r.data, size);
      ControlReads(num, cdc, r.data, size);
      wire := wire + [txBuf[..size]];
    }

    method WaitResponse(id: u16, polls: seq<PollResult>) returns (ok: bool, resp: seq<byte>)
      requires Valid()
      modifies this, txBuf
      ensures Valid() && old(log) <= log && old(delivered) <= delivered && old(wire) <= wire
      ensures ok ==> !ioctlPending
      ensures AllFramesOnly(polls) ==>
                && ioctlID == old(ioctlID) && ioctlRespID == id
                && (done == old(done) || AnswerTo(old(done), done, id))
                && (ok ==> AnswerTo(old(done), done, id) && resp == done[|old(done)|].data)
      ensures ok && AllQuiet(polls) ==> |done| > |old(done)| && done[|old(done)|].status == 0
      decreases polls
    {
      ioctlPending, ioctlRespID, ioctlResp := true, id, [];
      for k := 0 to |polls|
        invariant Valid() && old(log) <= log && old(delivered) <= delivered && old(wire) <= wire
        invariant ioctlPending
        invariant AllFramesOnly(polls) ==> Io() == Waiting(true, id, [], old(done)) && ioctlID == old(ioctlID)
        invariant AllQuiet(polls) ==> AllFramesOnly(polls)
      {
        var alive := Poll(polls[k]);
        if !alive {
          return false, [];
        }
        if !ioctlPending {
          return true, ioctlResp;
        }
      }
      ioctlPending := false;
      return false, [];
    }

    method Poll(p: PollResult) returns (ok: bool)
      requires Valid()
      modifies this, txBuf
      ensures Valid() && old(log) <= log && old(delivered) <= delivered && old(wire) <= wire
      ensures FramesOnly(p) ==> Awaits(old(Io()), Io()) && ioctlID == old(ioctlID)
      ensures ok && (p.Packet? ==> p.reaction == []) && Io() != old(Io()) ==>
                |done| > |old(done)| && done[|old(done)|].status == 0
      decreases p
    {
      match p {
        case BusError => return false;
        case Idle => return true;
        case Packet(pkt, reaction) =>
          if (|pkt| + 3) / 4 > BUF / 4 {
            return false;
          }
          ok := HandleRx(pkt, reaction);
      }
    }

    method HandleRx(pkt: seq<byte>, reaction: seq<Request>) returns (ok: bool)
      requires Valid()
      modifies this, txBuf
      ensures Valid() && old(log) <= log && old(delivered) <= delivered && old(wire) <= wire
      ensures Malformed(pkt) ==> ok && log == old(log) && Io() == old(Io()) && delivered == old(delivered)
      ensures !Malformed(pkt) && Parse(pkt).headerLength <= |pkt| && Parse(pkt).chanAndFlags % 16 == CHAN_DATA ==>
                var f := EthFrame(pkt[Parse(pkt).headerLength..]);
                if f == None then delivered == old(delivered) else old(delivered) + [f.value] <= delivered
      ensures !Malformed(pkt) && Parse(pkt).headerLength <= |pkt| && Parse(pkt).chanAndFlags % 16 == CHAN_CONTROL ==>
                && log == old(log) + (if Parse(pkt).busDataCredit > 0 then [Granted(Parse(pkt).busDataCredit)] else [])
                && (Io() != old(Io()) <==> Answers(old(Io()), pkt[Parse(pkt).headerLength..]))
      ensures ok && reaction == [] && Io() != old(Io()) ==> |done| > |old(done)| && done[|old(done)|].status == 0
      ensures (forall k | 0 <= k < |reaction| :: OnlyFrames(reaction[k])) ==>
                Awaits(old(Io()), Io()) && ioctlID == old(ioctlID)
      decreases reaction, 2
    {
      hide Parse, ParseCdc, Answers, OnlyFrames, Legal, Replay, EthFrame, ResponseData, CameFor;
      if |pkt| < SDPCM_HEADER {
        return true;
      }
      var h := Parse(pkt);
      if !Complementary(h.size, h.sizeCom) {
        return true;
      }
      if h.busDataCredit > 0 {
        TakeCredit(h.busDataCredit);
      }
      if h.headerLength > |pkt| {
        return true;
      }
      var payload := pkt[h.headerLength..];
      var chan := h.chanAndFlags % 16;
      if chan == CHAN_CONTROL {
        ok := HandleControl(payload);
      } else if chan == CHAN_DATA {
        ok := HandleData(payload, reaction);
      } else {
        ok := true;
      }
    }

    method TakeCredit(credit: byte)
      requires Valid()
      modifies this`sdpcmSeqMax, this`log
      ensures Valid() && log == old(log) + [Granted(credit)]
    {
      var max := credit;
      if Sub8(max, sdpcmSeq) > 0x40 {
        max := Add8(sdpcmSeq, 2);
      }
      sdpcmSeqMax := max;
      ghost var before := log;
      log := log + [Granted(credit)];
      assert log[..|log| - 1] == before;
    }

    /** An answer with the pending id completes the ioctl and leaves its data; a non-zero status is reported as an
        error to whoever polled. */
    method HandleControl(payload: seq<byte>) returns (ok: bool)
      requires Valid()
      modifies this`ioctlPending, this`ioctlResp, this`done
      ensures Valid() && Awaits(old(Io()), Io())
      ensures Io() != old(Io()) <==> Answers(old(Io()), payload)
      ensures old(ioctlPending) && !ioctlPending <==>
              old(ioctlPending) && |payload| >= CDC_HEADER && ParseCdc(payload).id == ioctlRespID
      ensures !ok <==> old(ioctlPending) && !ioctlPending && ParseCdc(payload).status != 0
      ensures ok && Io() != old(Io()) ==> ParseCdc(payload).status == 0
      ensures Io() != old(Io()) ==>
                done == old(done) + [Answer(ioctlRespID, ParseCdc(payload).status, ResponseData(payload))]
      ensures delivered == old(delivered)
    {
      if |payload| < CDC_HEADER {
        return true;
      }
      var cdc := ParseCdc(payload);
      if ioctlPending && cdc.id == ioctlRespID {
        ioctlPending := false;
        done := done + [Answer(cdc.id, cdc.status, ResponseData(payload))];
        if cdc.status != 0 {
          return false;
        }
        var dataEnd := AsInt(Add32(CDC_HEADER, cdc.length));
        if dataEnd > |payload| {
          dataEnd := |payload|;
        }
        if dataEnd > CDC_HEADER {
          ioctlResp := payload[CDC_HEADER..dataEnd];
        }
      }
      return true;
    }

    /** The Ethernet frame goes to the network stack, which may send before it returns. */
    method HandleData(payload: seq<byte>, reaction: seq<Request>) returns (ok: bool)
      requires Valid()
      modifies this, txBuf
      ensures Valid() && old(log) <= log && old(delivered) <= delivered && old(wire) <= wire
      ensures EthFrame(payload) == None ==> ok && log == old(log) && Io() == old(Io()) && delivered == old(delivered)
      ensures EthFrame(payload).Some? ==> old(delivered) + [EthFrame(payload).value] <= delivered
      ensures reaction == [] ==> Io() == old(Io())
      ensures (forall k | 0 <= k < |reaction| :: OnlyFrames(reaction[k])) ==>
                Awaits(old(Io()), Io()) && ioctlID == old(ioctlID)
      decreases reaction, 1
    {
      if |payload| < BDC_HEADER {
        return true;
      }
      var ethStart := BDC_HEADER + (payload[3] as int) * 4;
      if ethStart >= |payload| {
        return true;
      }
      delivered := delivered + [payload[ethStart..]];
      for k := 0 to |reaction|
        invariant Valid() && old(log) <= log && old(delivered) + [payload[ethStart..]] <= delivered && old(wire) <= wire
        invariant k == 0 ==> Io() == old(Io())
        invariant (forall i | 0 <= i < |reaction| :: OnlyFrames(reaction[i])) ==>
                    Awaits(old(Io()), Io()) && ioctlID == old(ioctlID)
      {
        var sent := Do(reaction[k]);
      }
      return true;
    }

    /** Every public operation, in any nesting, only appends legal entries to the log. */
    method Do(r: Request) returns (ok: bool)
      requires Valid()
      modifies this, txBuf
      ensures Valid() && old(log) <= log && old(delivered) <= delivered && old(wire) <= wire
      ensures OnlyFrames(r) ==> Awaits(old(Io()), Io()) && ioctlID == old(ioctlID)
      decreases r, 1
    {
      match r {
        case SendFrame(_, _, _) => ok := SendEth(r);
        case SendIoctl(_, _, _, _, _, _, _) =>
          var resp;
          ghost var at;
          ok, resp, at := DoIoctl(r);
        case PollOnly(p) => ok := Poll(p);
      }
    }
  }

  /** Credit safety under re-entrancy: after any requests, however nested, the window is at most 0x40, the
      numbers encoded are 0, 1, 2, ... modulo 256, and no 65 frames go out without a credit update. */
  method Drive(rs: seq<Request>) returns (d: Device)
    ensures d.Valid()
    ensures Open(Window(d.sdpcmSeq, d.sdpcmSeqMax)) <= MAX_WINDOW
    ensures forall i | 0 <= i < |Numbers(d.log)| :: Numbers(d.log)[i] == Wrap8(i)
    ensures d.sdpcmSeq == Wrap8(|Numbers(d.log)|)
    ensures forall i: nat, j: nat | i <= j <= |d.log| && Quiet(d.log, i, j) :: j - i <= MAX_WINDOW
  {
    d := new Device();
    for n := 0 to |rs|
      invariant fresh(d) && fresh(d.txBuf) && d.Valid()
    {
      var ok := d.Do(rs[n]);
    }
    WindowBounded(d.log);
    NumbersConsecutive(d.log);
    forall i: nat, j: nat | i <= j <= |d.log| && Quiet(d.log, i, j)
      ensures j - i <= MAX_WINDOW
    {
      AtMost64(d.log, i, j);
    }
  }
}
