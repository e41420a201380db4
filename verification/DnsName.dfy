/** Domain names on the wire (section 3.1 of RFC 1035) and as dotted strings, and what it means for the two to
    be the same name (section 2.3.3). */
module DnsName {
  import opened Words

  const DOT: byte := 46
  /** From this length byte on, both top bits are set and a label is a compression pointer. */
  const COMPRESSED := 0xC0

  type Label = seq<byte>

  datatype Parsed = Malformed | Name(labels: seq<Label>, end: nat)

  /** Pointer-free labels up to a zero byte. */
  function Parse(data: seq<byte>, at: nat): (r: Parsed)
    ensures r.Name? ==> at < r.end <= |data|
    decreases |data| - at
  {
    if at >= |data| then Malformed
    else if data[at] == 0 then Name([], at + 1)
    else if data[at] >= COMPRESSED || at + 1 + data[at] as int > |data| then Malformed
    else
      match Parse(data, at + 1 + data[at] as int)
      case Malformed => Malformed
      case Name(labels, end) => Name([data[at + 1..at + 1 + data[at] as int]] + labels, end)
  }

  /** Each label with a dot before it. */
  function Dotted(ls: seq<Label>): seq<byte> {
    if ls == [] then [] else [DOT] + ls[0] + Dotted(ls[1..])
  }

  /** The labels joined by dots. */
  function Join(ls: seq<Label>): seq<byte> {
    if ls == [] then [] else ls[0] + Dotted(ls[1..])
  }

  function LowerCase(b: byte): byte {
    if 65 <= b <= 90 then b + 32 else b
  }

  ghost predicate SameFolded(a: seq<byte>, b: seq<byte>) {
    |a| == |b| && forall i | 0 <= i < |a| :: LowerCase(a[i]) == LowerCase(b[i])
  }

  /** The name at data[at..] is target, ignoring ASCII case. */
  ghost predicate Matches(data: seq<byte>, at: nat, target: seq<byte>) {
    var p := Parse(data, at);
    p.Name? && SameFolded(Join(p.labels), target)
  }

  /** What is left to match once some labels have been compared. */
  ghost predicate MatchesRest(data: seq<byte>, at: nat, target: seq<byte>, tpos: nat)
    requires tpos <= |target|
  {
    var p := Parse(data, at);
    p.Name? && SameFolded(if tpos == 0 then Join(p.labels) else Dotted(p.labels), target[tpos..])
  }

  lemma FoldSplit(a: seq<byte>, b: seq<byte>, t: seq<byte>)
    ensures SameFolded(a + b, t) <==>
            |a| <= |t| && SameFolded(a, t[..|a|]) && SameFolded(b, t[|a|..])
  {
    if |a + b| == |t| {
      if SameFolded(a + b, t) {
        forall i | 0 <= i < |a|
          ensures LowerCase(a[i]) == LowerCase(t[i])
        {
          assert (a + b)[i] == a[i];
        }
        forall i | 0 <= i < |b|
          ensures LowerCase(b[i]) == LowerCase(t[|a|..][i])
        {
          assert (a + b)[|a| + i] == b[i];
        }
      }
    }
  }

  lemma FoldDot(b: byte)
    ensures LowerCase(DOT) == LowerCase(b) <==> b == DOT
  {
  }

  // ---------------------------------------------------------------- splitting and encoding

  /** The wire form of labels. */
  function Wire(ls: seq<Label>): seq<byte> {
    if ls == [] then [0] else [(|ls[0]| % 0x100) as byte] + ls[0] + Wire(ls[1..])
  }

  /** The non-empty pieces between dots: the piece from start to i is still open. */
  function Split(name: seq<byte>, start: nat, i: nat): (ls: seq<Label>)
    requires start <= i <= |name|
    decreases |name| - i
  {
    var piece := if i > start then [name[start..i]] else [];
    if i == |name| then piece
    else if name[i] == DOT then piece + Split(name, i + 1, i + 1)
    else Split(name, start, i + 1)
  }

  ghost predicate GoodLabel(l: Label) {
    0 < |l| < COMPRESSED && DOT !in l
  }

  ghost predicate GoodLabels(ls: seq<Label>) {
    forall i | 0 <= i < |ls| :: GoodLabel(ls[i])
  }

  /** Splitting a dotted name gives its labels back. */
  lemma SplitJoin(ls: seq<Label>)
    requires GoodLabels(ls) && ls != []
    ensures Split(Join(ls), 0, 0) == ls
  {
    SplitTail([], ls);
    assert [] + Join(ls) == Join(ls);
  }

  /** Where the first label of a dotted name lies, and what follows it. */
  lemma FirstLabel(before: seq<byte>, ls: seq<Label>)
    requires ls != []
    ensures var name, end := before + Join(ls), |before| + |ls[0]|;
            && end <= |name| && name[|before|..end] == ls[0]
            && (if |ls| == 1 then end == |name|
                else end < |name| && name[end] == DOT && name == before + ls[0] + [DOT] + Join(ls[1..]))
  {
    var rest := Dotted(ls[1..]);
    assert before + Join(ls) == before + ls[0] + rest;
    if |ls| > 1 {
      assert rest == [DOT] + Join(ls[1..]);
    }
  }

  lemma {:induction false} SplitTail(before: seq<byte>, ls: seq<Label>)
    requires GoodLabels(ls) && ls != []
    ensures Split(before + Join(ls), |before|, |before|) == ls
    decreases |ls|
  {
    hide Split, Join;
    var name, l := before + Join(ls), ls[0];
    var start, end := |before|, |before| + |l|;
    assert GoodLabel(l);
    FirstLabel(before, ls);
    SplitThrough(name, start, start, end);
    SplitClose(name, start, end);
    if |ls| > 1 {
      var next := before + l + [DOT];
      assert |next| == end + 1;
      SplitTail(next, ls[1..]);
      assert ls == [l] + ls[1..];
    } else {
      assert ls == [l] + [];
    }
  }

  /** A non-empty piece ends at the end of the name or at a dot. */
  lemma SplitClose(name: seq<byte>, start: nat, end: nat)
    requires start < end <= |name| && (end == |name| || name[end] == DOT)
    ensures Split(name, start, end) ==
            [name[start..end]] + if end == |name| then [] else Split(name, end + 1, end + 1)
  {
  }

  /** No dot between i and end: the open piece grows to end. */
  lemma {:induction false} SplitThrough(name: seq<byte>, start: nat, i: nat, end: nat)
    requires start <= i <= end <= |name| && DOT !in name[i..end]
    ensures Split(name, start, i) == Split(name, start, end)
    decreases end - i
  {
    if i == end {
    } else {
      assert name[i] in name[i..end];
      assert forall b | b in name[i + 1..end] :: b in name[i..end];
      SplitThrough(name, start, i + 1, end);
    }
  }

  /** The first label on the wire, and the rest behind it. */
  lemma WireCons(before: seq<byte>, ls: seq<Label>, after: seq<byte>)
    requires ls != [] && |ls[0]| < 0x100
    ensures var data, at, n := before + Wire(ls) + after, |before|, |ls[0]|;
            && at + 1 + n <= |data| && data[at] == n && data[at + 1..at + 1 + n] == ls[0]
            && data == (before + [n] + ls[0]) + Wire(ls[1..]) + after
            && |Wire(ls)| == 1 + n + |Wire(ls[1..])|
  {
    var w, n := Wire(ls[1..]), |ls[0]|;
    assert Wire(ls) == [n] + ls[0] + w;
    hide Wire;
    var data := before + ([n] + ls[0] + w) + after;
    assert data == before + [n] + ls[0] + w + after;
    assert data[|before| + 1..|before| + 1 + n] == ls[0];
  }

  lemma ParseCons(data: seq<byte>, at: nat, l: Label)
    requires 0 < |l| < COMPRESSED && at + 1 + |l| <= |data|
    requires data[at] == |l| && data[at + 1..at + 1 + |l|] == l
    ensures Parse(data, at) ==
            match Parse(data, at + 1 + |l|)
            case Malformed => Malformed
            case Name(ls, end) => Name([l] + ls, end)
  {
  }

  /** The wire form of ls, placed between before and after, parses back to ls and ends behind its zero byte. */
  ghost predicate Recovered(before: seq<byte>, ls: seq<Label>, after: seq<byte>) {
    Parse(before + Wire(ls) + after, |before|) == Name(ls, |before| + |Wire(ls)|)
  }

  lemma RecoveredStep(before: seq<byte>, ls: seq<Label>, after: seq<byte>)
    requires ls != [] && 0 < |ls[0]| < COMPRESSED
    ensures Recovered(before, ls, after) <==> Recovered(before + [|ls[0]|] + ls[0], ls[1..], after)
  {
    hide Parse, Wire;
    var l, rest := ls[0], ls[1..];
    var data, next := before + Wire(ls) + after, before + [|l|] + l;
    WireCons(before, ls, after);
    ParseCons(data, |before|, l);
    var r := Parse(data, |next|);
    if r.Name? {
      ConsExact(l, rest, r.labels);
      assert [l] + rest == ls;
    }
  }

  lemma ConsExact(l: Label, rest: seq<Label>, ls: seq<Label>)
    ensures [l] + ls == [l] + rest <==> ls == rest
  {
    assert ([l] + ls)[1..] == ls && ([l] + rest)[1..] == rest;
  }

  lemma RecoveredNone(before: seq<byte>, after: seq<byte>)
    ensures Recovered(before, [], after)
  {
    assert (before + Wire([]) + after)[|before|] == 0;
  }

  ghost predicate AllShort(ls: seq<Label>) {
    forall i | 0 <= i < |ls| :: |ls[i]| < COMPRESSED
  }

  ghost predicate NoneEmpty(ls: seq<Label>) {
    forall i | 0 <= i < |ls| :: |ls[i]| > 0
  }

  lemma FirstAndRest(ls: seq<Label>)
    requires ls != []
    ensures AllShort(ls) <==> |ls[0]| < COMPRESSED && AllShort(ls[1..])
    ensures NoneEmpty(ls) ==> |ls[0]| > 0 && NoneEmpty(ls[1..])
  {
    if AllShort(ls[1..]) && |ls[0]| < COMPRESSED {
      assert forall i | 0 < i < |ls| :: ls[i] == ls[1..][i - 1];
    }
  }

  /** Exactly: non-empty labels survive if and only if none of them reaches 192, where the length byte turns into a
      compression pointer or overflows. */
  lemma {:induction false} ParseWireExact(before: seq<byte>, ls: seq<Label>, after: seq<byte>)
    requires NoneEmpty(ls)
    ensures Recovered(before, ls, after) <==> AllShort(ls)
    decreases |ls|
  {
    if ls == [] {
      RecoveredNone(before, after);
    } else {
      FirstAndRest(ls);
      if |ls[0]| < COMPRESSED {
        hide Recovered, AllShort, NoneEmpty;
        RecoveredStep(before, ls, after);
        ParseWireExact(before + [|ls[0]|] + ls[0], ls[1..], after);
      } else {
        hide Parse, Wire;
        FirstLabelShort(before + Wire(ls) + after, |before|);
      }
    }
  }

  /** With a label between 192 and 255 bytes long the wire form is not a name at all. */
  lemma {:induction false} LongLabelMalformed(before: seq<byte>, ls: seq<Label>, after: seq<byte>)
    requires NoneEmpty(ls) && !AllShort(ls) && forall i | 0 <= i < |ls| :: |ls[i]| < 0x100
    ensures Spoilt(before, ls, after)
    decreases |ls|
  {
    FirstAndRest(ls);
    hide Wire, NoneEmpty, AllShort, Parse, Spoilt;
    if |ls[0]| >= COMPRESSED {
      SpoiltHead(before, ls, after);
    } else {
      SpoiltRest(before, ls, after);
      LongLabelMalformed(before + [|ls[0]|] + ls[0], ls[1..], after);
    }
  }

  ghost predicate Spoilt(before: seq<byte>, ls: seq<Label>, after: seq<byte>) {
    Parse(before + Wire(ls) + after, |before|) == Malformed
  }

  lemma SpoiltHead(before: seq<byte>, ls: seq<Label>, after: seq<byte>)
    requires ls != [] && COMPRESSED <= |ls[0]| < 0x100
    ensures Spoilt(before, ls, after)
  {
    WireCons(before, ls, after);
    hide Wire;
  }

  lemma SpoiltRest(before: seq<byte>, ls: seq<Label>, after: seq<byte>)
    requires ls != [] && 0 < |ls[0]| < COMPRESSED
    ensures Spoilt(before, ls, after) <==> Spoilt(before + [|ls[0]|] + ls[0], ls[1..], after)
  {
    hide Parse, Wire;
    WireCons(before, ls, after);
    ParseCons(before + Wire(ls) + after, |before|, ls[0]);
  }

  lemma {:induction false} SplitNoneEmpty(name: seq<byte>, start: nat, i: nat)
    requires start <= i <= |name|
    ensures NoneEmpty(Split(name, start, i))
    decreases |name| - i
  {
    if i == |name| {
    } else if name[i] == DOT {
      SplitNoneEmpty(name, i + 1, i + 1);
    } else {
      SplitNoneEmpty(name, start, i + 1);
    }
  }

  /** So labels of every length the standard allows parse back. */
  lemma ParseWire(before: seq<byte>, ls: seq<Label>, after: seq<byte>)
    requires GoodLabels(ls)
    ensures Parse(before + Wire(ls) + after, |before|) == Name(ls, |before| + |Wire(ls)|)
  {
    assert forall i | 0 <= i < |ls| :: GoodLabel(ls[i]);
    ParseWireExact(before, ls, after);
  }

  /** No label the parser finds first is 192 bytes long or more. */
  lemma FirstLabelShort(data: seq<byte>, at: nat)
    ensures var r := Parse(data, at); r.Name? && r.labels != [] ==> |r.labels[0]| < COMPRESSED
  {
  }

  lemma {:induction false} WireLength(ls: seq<Label>)
    ensures |Wire(ls)| == |Dotted(ls)| + 1
    ensures ls != [] ==> |Wire(ls)| == |Join(ls)| + 2
  {
    if ls == [] {
    } else {
      WireLength(ls[1..]);
    }
  }

  /** A name with non-empty labels survives the trip over the wire: it encodes, skips and matches. */
  lemma EncodedNameMatches(before: seq<byte>, ls: seq<Label>, after: seq<byte>, target: seq<byte>)
    requires GoodLabels(ls) && ls != []
    ensures var data := before + Wire(Split(Join(ls), 0, 0)) + after;
            && Parse(data, |before|) == Name(ls, |before| + |Join(ls)| + 2)
            && (Matches(data, |before|, target) <==> SameFolded(Join(ls), target))
  {
    SplitJoin(ls);
    ParseWire(before, ls, after);
    WireLength(ls);
  }
}
