/** The DNS query builder (stack/dns.go) and the mDNS question handler (stack/mdns.go). */
module Dns {
  import opened Words
  import opened Rings
  import opened DnsName

  const HEADER := 12
  const TYPE_A := 1
  const TYPE_PTR := 12
  const TYPE_TXT := 16
  const TYPE_SRV := 33
  const TYPE_ANY := 255
  const CLASS_IN := 1

  // ---------------------------------------------------------------- matching

  /** Folded comparison against target from t on, split behind a first piece. */
  lemma FoldAt(a: seq<byte>, b: seq<byte>, target: seq<byte>, t: nat)
    requires t <= |target|
    ensures SameFolded(a + b, target[t..]) <==>
            t + |a| <= |target| && SameFolded(a, target[t..t + |a|]) && SameFolded(b, target[t + |a|..])
  {
    hide SameFolded;
    FoldSplit(a, b, target[t..]);
    if t + |a| <= |target| {
      assert target[t..][..|a|] == target[t..t + |a|] && target[t..][|a|..] == target[t + |a|..];
    }
  }

  lemma DotAt(b: seq<byte>, target: seq<byte>, t: nat)
    requires t <= |target|
    ensures SameFolded([DOT] + b, target[t..]) <==>
            t < |target| && target[t] == DOT && SameFolded(b, target[t + 1..])
  {
    FoldAt([DOT], b, target, t);
    if t < |target| {
      FoldDot(target[t]);
      assert target[t..t + 1] == [target[t]];
    }
  }

  lemma ParseStep(data: seq<byte>, at: nat)
    requires at < |data| && 0 < data[at] < COMPRESSED
    ensures var next := at + 1 + data[at] as int;
            && (Parse(data, at).Name? <==> next <= |data| && Parse(data, next).Name?)
            && (Parse(data, at).Name? ==> Parse(data, at).labels == [data[at + 1..next]] + Parse(data, next).labels)
  {
  }

  /** One label compared: the name matches from here if and only if the label does and the rest does. */
  lemma LabelStep(data: seq<byte>, at: nat, target: seq<byte>, tpos: nat)
    requires at < |data| && 0 < data[at] < COMPRESSED && tpos <= |target|
    ensures var len: nat := data[at];
            var t := if tpos == 0 then 0 else tpos + 1;
            MatchesRest(data, at, target, tpos) <==>
              && (tpos == 0 || (tpos < |target| && target[tpos] == DOT))
              && at + 1 + len <= |data| && t + len <= |target|
              && SameFolded(data[at + 1..at + 1 + len], target[t..t + len])
              && MatchesRest(data, at + 1 + len, target, t + len)
  {
    hide Parse, SameFolded;
    var len: nat := data[at];
    ParseStep(data, at);
    if at + 1 + len <= |data| && Parse(data, at + 1 + len).Name? {
      var l, rest := data[at + 1..at + 1 + len], Parse(data, at + 1 + len).labels;
      assert ([l] + rest)[1..] == rest;
      if tpos == 0 {
        FoldAt(l, Dotted(rest), target, 0);
      } else {
        assert Dotted([l] + rest) == [DOT] + (l + Dotted(rest));
        DotAt(l + Dotted(rest), target, tpos);
        if tpos < |target| {
          FoldAt(l, Dotted(rest), target, tpos + 1);
        }
      }
    }
  }

  /** Where no label follows: a zero byte matches the end of the target, anything else nothing. */
  lemma LabelEnd(data: seq<byte>, at: nat, target: seq<byte>, tpos: nat)
    requires tpos <= |target| && (at >= |data| || data[at] == 0 || data[at] >= COMPRESSED)
    ensures MatchesRest(data, at, target, tpos) <==> at < |data| && data[at] == 0 && tpos == |target|
  {
  }

  lemma MatchStart(data: seq<byte>, at: nat, target: seq<byte>)
    ensures MatchesRest(data, at, target, 0) == Matches(data, at, target)
  {
    assert target[0..] == target;
  }

  /** True exactly when the bytes are pointer-free labels ending in a zero whose dot-join equals the target
      ignoring ASCII case. */
  method MatchName(data: seq<byte>, start: nat, target: seq<byte>) returns (r: bool)
    ensures r == Matches(data, start, target)
  {
    hide Matches, MatchesRest, SameFolded;
    var offset: nat, tpos: nat := start, 0;
    MatchStart(data, start, target);
    while offset < |data|
      invariant tpos <= |target|
      invariant MatchesRest(data, offset, target, tpos) == Matches(data, start, target)
      decreases |data| - offset
    {
      var labelLen: nat := data[offset];
      if labelLen == 0 {
        LabelEnd(data, offset, target, tpos);
        return tpos == |target|;
      }
      if labelLen >= COMPRESSED {
        LabelEnd(data, offset, target, tpos);
        return false;
      }
      LabelStep(data, offset, target, tpos);
      offset := offset + 1;
      if tpos > 0 {
        if tpos >= |target| || target[tpos] != DOT {
          return false;
        }
        tpos := tpos + 1;
      }
      if tpos + labelLen > |target| {
        return false;
      }
      if offset + labelLen > |data| {
        return false;
      }
      var same := SameLabel(data[offset..offset + labelLen], target[tpos..tpos + labelLen]);
      if !same {
        return false;
      }
      offset := offset + labelLen;
      tpos := tpos + labelLen;
    }
    LabelEnd(data, offset, target, tpos);
    return false;
  }

  method SameLabel(l: seq<byte>, t: seq<byte>) returns (same: bool)
    requires |l| == |t|
    ensures same == SameFolded(l, t)
  {
    for j := 0 to |l|
      invariant forall k | 0 <= k < j :: LowerCase(l[k]) == LowerCase(t[k])
    {
      if LowerCase(l[j]) != LowerCase(t[j]) {
        return false;
      }
    }
    return true;
  }

  // ---------------------------------------------------------------- skipping

  /** The offset behind a name, which a compression pointer may end, or -1. */
  function Skip(data: seq<byte>, at: nat): (r: int)
    decreases |data| - at
  {
    if at >= |data| then -1
    else if data[at] == 0 then at + 1
    else if data[at] >= COMPRESSED then at + 2
    else Skip(data, at + data[at] as int + 1)
  }

  method SkipName(data: seq<byte>, start: nat) returns (r: int)
    ensures r == Skip(data, start)
  {
    var offset := start;
    while offset < |data|
      invariant Skip(data, offset) == Skip(data, start)
      decreases |data| - offset
    {
      var b := data[offset];
      if b == 0 {
        return offset + 1;
      }
      if b >= COMPRESSED {
        return offset + 2;
      }
      offset := offset + b as int + 1;
    }
    return -1;
  }

  /** Skipping lands behind every name that parses. */
  lemma {:induction false} SkipLands(data: seq<byte>, at: nat)
    requires Parse(data, at).Name?
    ensures Skip(data, at) == Parse(data, at).end
    decreases |data| - at
  {
    if data[at] == 0 {
    } else {
      SkipLands(data, at + 1 + data[at] as int);
    }
  }

  // ---------------------------------------------------------------- encoding

  /** b with x in place from offset on. */
  ghost function Placed(b: seq<byte>, offset: nat, x: seq<byte>): (r: seq<byte>)
    requires offset + |x| <= |b|
    ensures |r| == |b|
  {
    b[..offset] + x + b[offset + |x|..]
  }

  /** The wire form without its final zero. */
  function Body(ls: seq<Label>): seq<byte> {
    if ls == [] then [] else Body(ls[..|ls| - 1]) + [(|ls[|ls| - 1]| % 0x100) as byte] + ls[|ls| - 1]
  }

  lemma {:induction false} WireIsBody(ls: seq<Label>, ms: seq<Label>)
    ensures Body(ls) + Wire(ms) == Wire(ls + ms)
    decreases |ls|
  {
    if ls == [] {
      assert ls + ms == ms;
    } else {
      var n := |ls| - 1;
      WireIsBody(ls[..n], [ls[n]] + ms);
      assert ([ls[n]] + ms)[1..] == ms;
      assert ls[..n] + ([ls[n]] + ms) == ls + ms;
    }
  }

  lemma BodyGrows(ls: seq<Label>, ms: seq<Label>)
    ensures |Body(ls)| + 1 <= |Wire(ls + ms)|
    ensures ms != [] ==> |Body(ls)| + 1 + |ms[0]| + 1 <= |Wire(ls + ms)|
  {
    WireIsBody(ls, ms);
  }

  /** Fails exactly when the encoded name does not fit behind offset. */
  method EncodeName(buf: array<byte>, offset: nat, name: seq<byte>) returns (end: int)
    requires offset <= buf.Length
    modifies buf
    ensures end == -1 || end == offset + |Wire(Split(name, 0, 0))|
    ensures end == -1 <==> offset + |Wire(Split(name, 0, 0))| > buf.Length
    ensures end != -1 ==> buf[..] == Placed(old(buf[..]), offset, Wire(Split(name, 0, 0)))
  {
    hide Split, Wire, Body, Placed;
    ghost var ls: seq<Label> := [];
    ghost var all, b0 := Split(name, 0, 0), buf[..];
    var start, i, off := 0, 0, offset;
    BodyEmpty();
    PlacedNothing(b0, offset);
    assert ls + all == all;
    while i <= |name|
      invariant start <= |name| + 1 && i <= |name| + 1 && start <= i
      invariant off == offset + |Body(ls)| <= buf.Length
      invariant if i <= |name| then ls + Split(name, start, i) == all else ls == all
      invariant buf[..] == Placed(b0, offset, Body(ls))
      decreases |name| + 1 - i
    {
      SplitUnfold(name, start, i);
      if i == |name| || name[i] == DOT {
        var labelLen := i - start;
        if labelLen > 0 {
          ghost var l, rest := name[start..i], Split(name, start, i)[1..];
          BodyGrows(ls, Split(name, start, i));
          if off + 1 + labelLen >= buf.Length {
            return -1;
          }
          PutLabel(buf, off, name[start..i], b0, offset, ls);
          off := off + 1 + labelLen;
          Regroup(ls, l, rest);
          ls := ls + [l];
        }
        assert i == |name| ==> ls + [] == ls;
        start := i + 1;
      }
      i := i + 1;
    }
    WireIsBody(ls, []);
    WireEmpty();
    assert ls + [] == ls;
    if off >= buf.Length {
      return -1;
    }
    PlacedMore(b0, offset, Body(ls), [0]);
    PutZero(buf, off);
    end := off + 1;
  }

  method PutZero(buf: array<byte>, off: nat)
    requires off < buf.Length
    modifies buf
    ensures buf[..] == Placed(old(buf[..]), off, [0])
  {
    buf[off] := 0;
  }

  lemma Regroup(ls: seq<Label>, l: Label, rest: seq<Label>)
    ensures ls + ([l] + rest) == (ls + [l]) + rest
  {
  }

  lemma BodyEmpty()
    ensures Body([]) == []
  {
  }

  lemma WireEmpty()
    ensures Wire([]) == [0]
  {
  }

  lemma SplitUnfold(name: seq<byte>, start: nat, i: nat)
    requires start <= i <= |name|
    ensures var piece := if i > start then [name[start..i]] else [];
            Split(name, start, i) ==
            if i == |name| then piece
            else if name[i] == DOT then piece + Split(name, i + 1, i + 1)
            else Split(name, start, i + 1)
  {
  }

  lemma PlacedNothing(b: seq<byte>, offset: nat)
    requires offset <= |b|
    ensures Placed(b, offset, []) == b
  {
  }

  /** Placing more behind what is placed extends it. */
  lemma PlacedMore(b: seq<byte>, offset: nat, x: seq<byte>, y: seq<byte>)
    requires offset + |x| + |y| <= |b|
    ensures Placed(Placed(b, offset, x), offset + |x|, y) == Placed(b, offset, x + y)
  {
  }

  method PutLabel(buf: array<byte>, off: nat, l: Label, ghost b0: seq<byte>, ghost offset: nat, ghost ls: seq<Label>)
    requires off + 1 + |l| <= buf.Length && |b0| == buf.Length && offset <= off == offset + |Body(ls)|
    requires buf[..] == Placed(b0, offset, Body(ls))
    modifies buf
    ensures |Body(ls + [l])| == |Body(ls)| + 1 + |l|
    ensures buf[..] == Placed(b0, offset, Body(ls + [l]))
  {
    hide Body;
    ghost var d0 := buf[..];
    var lengthByte: byte := |l| % 0x100;
    buf[off] := lengthByte;
    ghost var d1 := buf[..];
    CopyIn(buf, off + 1, l);
    CopiedInTwo(d0, d1, buf[..], off, [lengthByte], l);
    BodySnoc(ls, l);
    hide Placed;
    PlacedMore(b0, offset, Body(ls), [lengthByte] + l);
  }

  lemma BodySnoc(ls: seq<Label>, l: Label)
    ensures Body(ls + [l]) == Body(ls) + ([(|l| % 0x100) as byte] + l)
  {
    assert (ls + [l])[..|ls|] == ls;
  }
}
