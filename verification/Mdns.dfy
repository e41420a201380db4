/** Queries built by stack/dns.go and the questions stack/mdns.go answers: a query for a name is answered with
    the host's address exactly when the name is the host name. */
module Mdns {
  import opened Words
  import opened Rings
  import opened DnsName
  import opened Dns

  datatype Answer = HostAddress | ServiceEnum | Pointer(i: nat) | Server(i: nat) | Text(i: nat)
  datatype Service = Service(svcFQDN: seq<byte>, instFQDN: seq<byte>)

  /** "_services._dns-sd._udp.local" */
  const ENUM_NAME: seq<byte> := [95, 115, 101, 114, 118, 105, 99, 101, 115, 46, 95, 100, 110, 115, 45, 115, 100,
                                 46, 95, 117, 100, 112, 46, 108, 111, 99, 97, 108]

  // ---------------------------------------------------------------- building a query

  function QueryHeader(id: u16): (s: seq<byte>)
    ensures |s| == HEADER
  {
    Bytes16(id) + [1, 0, 0, 1, 0, 0, 0, 0, 0, 0]
  }

  function Query(id: u16, name: seq<byte>): seq<byte> {
    QueryHeader(id) + Wire(Split(name, 0, 0)) + [0, 1, 0, 1]
  }

  /** Labels between dots never take more room than the string, plus one length byte and the final zero. */
  lemma {:induction false} SplitRoom(name: seq<byte>, start: nat, i: nat)
    requires start <= i <= |name|
    ensures |Wire(Split(name, start, i))| <= |name| - start + 2
    decreases |name| - i
  {
    hide Wire, Split;
    SplitUnfold(name, start, i);
    if i == |name| {
      WireMore(name[start..i], []);
    } else if name[i] == DOT {
      var rest := Split(name, i + 1, i + 1);
      SplitRoom(name, i + 1, i + 1);
      WireMore(name[start..i], rest);
      assert [] + rest == rest;
    } else {
      SplitRoom(name, start, i + 1);
    }
  }

  lemma WireMore(l: Label, rest: seq<Label>)
    ensures |Wire([l] + rest)| == 1 + |l| + |Wire(rest)| && |Wire([])| == 1
    ensures rest == [] ==> [l] + rest == [l]
  {
    assert ([l] + rest)[1..] == rest;
  }

  /** Zero for a name too long for the buffer, else the length of the query at its front. */
  method BuildQuery(id: u16, name: seq<byte>, buf: array<byte>) returns (n: nat)
    modifies buf
    ensures n == 0 <==> |name| + 19 > buf.Length
    ensures n > 0 ==> n <= buf.Length && buf[..n] == Query(id, name)
  {
    hide Wire, Split;
    if |name| + 19 > buf.Length {
      return 0;
    }
    SplitRoom(name, 0, 0);
    CopyIn(buf, 0, QueryHeader(id));
    ghost var b0 := buf[..];
    var end := EncodeName(buf, HEADER, name);
    assert end > 0;
    ghost var b1 := buf[..];
    CopyIn(buf, end, [0, 1, 0, 1]);
    n := end + 4;
    assert b0[..HEADER] == QueryHeader(id);
    QueryPlaced(b0, b1, buf[..], QueryHeader(id), Wire(Split(name, 0, 0)), end);
  }

  lemma QueryPlaced(b0: seq<byte>, b1: seq<byte>, b2: seq<byte>, h: seq<byte>, w: seq<byte>, end: nat)
    requires |h| + |w| + 4 <= |b0| && end == |h| + |w| && b0[..|h|] == h
    requires b1 == Placed(b0, |h|, w) && b2 == b1[..end] + [0, 1, 0, 1] + b1[end + 4..]
    ensures b2[..end + 4] == h + w + [0, 1, 0, 1]
  {
  }

  // ---------------------------------------------------------------- answering

  predicate AsksFor(qtype: u16, t: u16) {
    qtype == t || qtype == TYPE_ANY
  }

  /** The services from i on, in table order. */
  ghost function ServiceAnswer(svcs: seq<Service>, data: seq<byte>, at: nat, qtype: u16, i: nat): Option<Answer>
    requires i <= |svcs|
    decreases |svcs| - i
  {
    if i == |svcs| then None
    else if AsksFor(qtype, TYPE_PTR) && Matches(data, at, svcs[i].svcFQDN) then Some(Pointer(i))
    else if AsksFor(qtype, TYPE_SRV) && Matches(data, at, svcs[i].instFQDN) then Some(Server(i))
    else if AsksFor(qtype, TYPE_TXT) && Matches(data, at, svcs[i].instFQDN) then Some(Text(i))
    else ServiceAnswer(svcs, data, at, qtype, i + 1)
  }

  ghost predicate Offers(s: Service, data: seq<byte>, at: nat, qtype: u16) {
    || (AsksFor(qtype, TYPE_PTR) && Matches(data, at, s.svcFQDN))
    || ((AsksFor(qtype, TYPE_SRV) || AsksFor(qtype, TYPE_TXT)) && Matches(data, at, s.instFQDN))
  }

  /** The first service from i on that has a record to offer answers with it: the pointer if the name is its service's,
      else what is asked for of its instance, the location before the text. */
  lemma {:induction false} FirstOffer(svcs: seq<Service>, data: seq<byte>, at: nat, qtype: u16, i: nat)
    requires i <= |svcs|
    ensures match ServiceAnswer(svcs, data, at, qtype, i)
            case None => forall j | i <= j < |svcs| :: !Offers(svcs[j], data, at, qtype)
            case Some(a) =>
              && (a.Pointer? || a.Server? || a.Text?) && i <= a.i < |svcs| && Offers(svcs[a.i], data, at, qtype)
              && (forall j | i <= j < a.i :: !Offers(svcs[j], data, at, qtype))
              && (a.Pointer? <==> AsksFor(qtype, TYPE_PTR) && Matches(data, at, svcs[a.i].svcFQDN))
              && (a.Text? ==> qtype == TYPE_TXT) && (a.Server? ==> qtype == TYPE_SRV || qtype == TYPE_ANY)
    decreases |svcs| - i
  {
    hide Matches;
    if i == |svcs| {
    } else {
      FirstOffer(svcs, data, at, qtype, i + 1);
    }
  }

  /** What a question for the name at data[at..] is answered with. */
  ghost function QuestionAnswer(host: seq<byte>, svcs: seq<Service>, data: seq<byte>, at: nat, qtype: u16)
    : Option<Answer>
  {
    if AsksFor(qtype, TYPE_A) && Matches(data, at, host) then Some(HostAddress)
    else if AsksFor(qtype, TYPE_PTR) && Matches(data, at, ENUM_NAME) then Some(ServiceEnum)
    else ServiceAnswer(svcs, data, at, qtype, 0)
  }

  method HandleQuestion(host: seq<byte>, svcs: seq<Service>, data: seq<byte>, at: nat, qtype: u16)
    returns (r: Option<Answer>)
    ensures r == QuestionAnswer(host, svcs, data, at, qtype)
  {
    hide Matches;
    if qtype == TYPE_A || qtype == TYPE_ANY {
      var m := MatchName(data, at, host);
      if m {
        return Some(HostAddress);
      }
    }
    if qtype == TYPE_PTR || qtype == TYPE_ANY {
      var m := MatchName(data, at, ENUM_NAME);
      if m {
        return Some(ServiceEnum);
      }
    }
    for i := 0 to |svcs|
      invariant ServiceAnswer(svcs, data, at, qtype, i) == ServiceAnswer(svcs, data, at, qtype, 0)
    {
      if qtype == TYPE_PTR || qtype == TYPE_ANY {
        var m := MatchName(data, at, svcs[i].svcFQDN);
        if m {
          return Some(Pointer(i));
        }
      }
      if qtype == TYPE_SRV || qtype == TYPE_ANY {
        var m := MatchName(data, at, svcs[i].instFQDN);
        if m {
          return Some(Server(i));
        }
      }
      if qtype == TYPE_TXT || qtype == TYPE_ANY {
        var m := MatchName(data, at, svcs[i].instFQDN);
        if m {
          return Some(Text(i));
        }
      }
    }
    return None;
  }

  function AsSeq(o: Option<Answer>): seq<Answer> {
    if o.Some? then [o.value] else []
  }

  /** The class without the bit that asks for a unicast answer. */
  predicate IsInternet(qclass: u16) {
    qclass == CLASS_IN || qclass == 0x8000 + CLASS_IN
  }

  /** The answers to up to count questions from offset on. */
  ghost function Answers(host: seq<byte>, svcs: seq<Service>, data: seq<byte>, offset: nat, count: nat): seq<Answer>
    decreases count
  {
    if count == 0 || offset >= |data| then []
    else
      var end := Skip(data, offset);
      if end < 0 || end + 4 > |data| then []
      else
        var qtype, qclass := Be16(data[end], data[end + 1]), Be16(data[end + 2], data[end + 3]);
        (if IsInternet(qclass) then AsSeq(QuestionAnswer(host, svcs, data, offset, qtype)) else [])
        + Answers(host, svcs, data, end + 4, count - 1)
  }

  lemma AnswersStep(host: seq<byte>, svcs: seq<Service>, data: seq<byte>, offset: nat, count: nat)
    ensures count == 0 || offset >= |data| ==> Answers(host, svcs, data, offset, count) == []
    ensures count > 0 && offset < |data| ==>
              var end := Skip(data, offset);
              Answers(host, svcs, data, offset, count) ==
              if end < 0 || end + 4 > |data| then []
              else
                var qtype, qclass := Be16(data[end], data[end + 1]), Be16(data[end + 2], data[end + 3]);
                (if IsInternet(qclass) then AsSeq(QuestionAnswer(host, svcs, data, offset, qtype)) else [])
                + Answers(host, svcs, data, end + 4, count - 1)
  {
    hide Skip, QuestionAnswer, Be16;
  }

  /** Only a query (not a response) with questions, to a host with a name and an address. */
  ghost predicate Heeded(host: seq<byte>, hasAddress: bool, data: seq<byte>) {
    host != [] && hasAddress && |data| >= HEADER && data[2] < 0x80
  }

  lemma {:induction false} SkipPositive(data: seq<byte>, at: nat)
    ensures Skip(data, at) == -1 || Skip(data, at) > at
    decreases |data| - at
  {
    if at >= |data| || data[at] == 0 || data[at] >= COMPRESSED {
    } else {
      SkipPositive(data, at + data[at] as int + 1);
    }
  }

  method HandleQuery(host: seq<byte>, hasAddress: bool, svcs: seq<Service>, data: seq<byte>)
    returns (out: seq<Answer>)
    ensures out == if Heeded(host, hasAddress, data)
                   then Answers(host, svcs, data, HEADER, Be16(data[4], data[5])) else []
  {
    hide Skip, QuestionAnswer, Answers, Be16, AsSeq;
    out := [];
    if host == [] || !hasAddress {
      return;
    }
    if |data| < HEADER {
      return;
    }
    if data[2] >= 0x80 {
      return;
    }
    var qdCount: nat := Be16(data[4], data[5]);
    var offset: nat := HEADER;
    var i := 0;
    ghost var all := Answers(host, svcs, data, HEADER, qdCount);
    assert [] + all == all;
    while i < qdCount && offset < |data|
      invariant i <= qdCount
      invariant out + Answers(host, svcs, data, offset, qdCount - i) == all
      decreases qdCount - i
    {
      AnswersStep(host, svcs, data, offset, qdCount - i);
      var nameStart := offset;
      var end := SkipName(data, offset);
      SkipPositive(data, offset);
      if end < 0 || end + 4 > |data| {
        assert out + [] == out;
        return;
      }
      var qtype, qclass := Be16(data[end], data[end + 1]), Be16(data[end + 2], data[end + 3]);
      offset := end + 4;
      i := i + 1;
      ghost var rest := Answers(host, svcs, data, offset, qdCount - i);
      if qclass % 0x8000 != CLASS_IN {
        assert [] + rest == rest;
        continue;
      }
      var r := HandleQuestion(host, svcs, data, nameStart, qtype);
      assert out + (AsSeq(r) + rest) == (out + AsSeq(r)) + rest;
      out := out + AsSeq(r);
    }
    AnswersStep(host, svcs, data, offset, qdCount - i);
    assert out + [] == out;
  }

  // ---------------------------------------------------------------- the two together

  /** A built query with short labels parses to them, then type A and class IN. */
  lemma QueryShape(id: u16, name: seq<byte>)
    requires AllShort(Split(name, 0, 0))
    ensures var q := Query(id, name);
            && |q| >= HEADER + 4 && Parse(q, HEADER) == Name(Split(name, 0, 0), |q| - 4) && Skip(q, HEADER) == |q| - 4
            && q[|q| - 4..] == [0, 1, 0, 1]
  {
    hide Wire, Split, Parse, Skip, AllShort;
    var q, ls := Query(id, name), Split(name, 0, 0);
    SplitNoneEmpty(name, 0, 0);
    ParseWireExact(QueryHeader(id), ls, [0, 1, 0, 1]);
    SkipLands(q, HEADER);
  }

  lemma QueryStart(id: u16, name: seq<byte>)
    ensures var q := Query(id, name); |q| >= HEADER && q[2] == 1 && Be16(q[4], q[5]) == 1
  {
    hide Wire, Split;
  }

  lemma OnlyHostAddress(host: seq<byte>, svcs: seq<Service>, data: seq<byte>, at: nat, i: nat)
    requires i <= |svcs|
    ensures ServiceAnswer(svcs, data, at, TYPE_A, i) == None
    decreases |svcs| - i
  {
  }

  /** What is no name gets no answer, whatever type is asked for. */
  lemma NoName(host: seq<byte>, svcs: seq<Service>, data: seq<byte>, at: nat, qtype: u16)
    requires Parse(data, at) == Malformed
    ensures QuestionAnswer(host, svcs, data, at, qtype) == None
  {
    hide Parse, SameFolded;
    NoService(svcs, data, at, qtype, 0);
  }

  lemma NoService(svcs: seq<Service>, data: seq<byte>, at: nat, qtype: u16, i: nat)
    requires i <= |svcs| && Parse(data, at) == Malformed
    ensures ServiceAnswer(svcs, data, at, qtype, i) == None
    decreases |svcs| - i
  {
    hide Parse, SameFolded;
  }

  /** Any name the builder takes, with dots anywhere: its query is answered, once and with the host's address,
      exactly when no label is 192 bytes long or more and the labels, joined by dots again, equal the host name ignoring
      ASCII case. The answer does not depend on the services offered. */
  lemma QueryAnswered(id: u16, name: seq<byte>, host: seq<byte>, svcs: seq<Service>)
    requires host != [] && forall i | 0 <= i < |Split(name, 0, 0)| :: |Split(name, 0, 0)[i]| < 0x100
    ensures var q, ls := Query(id, name), Split(name, 0, 0);
            && Heeded(host, true, q)
            && Answers(host, svcs, q, HEADER, Be16(q[4], q[5])) ==
               if AllShort(ls) && SameFolded(Join(ls), host) then [HostAddress] else []
  {
    hide Wire, Split, Parse, Skip, Join, SameFolded, ServiceAnswer, Answers, AllShort, QuestionAnswer;
    QueryStart(id, name);
    var q, ls := Query(id, name), Split(name, 0, 0);
    if AllShort(ls) {
      QueryShape(id, name);
      OneQuestion(host, svcs, q, ls);
    } else {
      SplitNoneEmpty(name, 0, 0);
      LongLabelMalformed(QueryHeader(id), ls, [0, 1, 0, 1]);
      NotAName(host, svcs, q);
    }
  }

  /** One question of type A for the name that starts behind the header. */
  lemma OneQuestion(host: seq<byte>, svcs: seq<Service>, q: seq<byte>, ls: seq<Label>)
    requires |q| >= HEADER + 4 && Parse(q, HEADER) == Name(ls, |q| - 4) && Skip(q, HEADER) == |q| - 4
    requires q[|q| - 4..] == [0, 1, 0, 1]
    ensures Answers(host, svcs, q, HEADER, 1) == if SameFolded(Join(ls), host) then [HostAddress] else []
  {
    hide Parse, Skip, Join, SameFolded, QuestionAnswer, Answers;
    var end := |q| - 4;
    TypeAndClass(q, end);
    hide IsInternet, Be16;
    HostQuestion(host, svcs, q, ls, end);
    AnswersStep(host, svcs, q, HEADER, 1);
    AnswersStep(host, svcs, q, end + 4, 0);
  }

  lemma HostQuestion(host: seq<byte>, svcs: seq<Service>, q: seq<byte>, ls: seq<Label>, end: nat)
    requires Parse(q, HEADER) == Name(ls, end)
    ensures QuestionAnswer(host, svcs, q, HEADER, TYPE_A) ==
            if SameFolded(Join(ls), host) then Some(HostAddress) else None
  {
    hide Parse, Join, SameFolded, ServiceAnswer;
    OnlyHostAddress(host, svcs, q, HEADER, 0);
  }

  lemma TypeAndClass(q: seq<byte>, end: nat)
    requires end + 4 <= |q| && q[end..] == [0, 1, 0, 1]
    ensures Be16(q[end], q[end + 1]) == TYPE_A && Be16(q[end + 2], q[end + 3]) == CLASS_IN && IsInternet(CLASS_IN)
  {
    var t := q[end..];
    assert q[end] == t[0] && q[end + 1] == t[1] && q[end + 2] == t[2] && q[end + 3] == t[3];
  }

  /** A question for what is no name. */
  lemma NotAName(host: seq<byte>, svcs: seq<Service>, q: seq<byte>)
    requires |q| >= HEADER && Parse(q, HEADER) == Malformed
    ensures Answers(host, svcs, q, HEADER, 1) == []
  {
    hide Parse, Skip, Answers, QuestionAnswer, IsInternet, Be16;
    AnswersStep(host, svcs, q, HEADER, 1);
    var end := Skip(q, HEADER);
    if 0 <= end && end + 4 <= |q| {
      NoName(host, svcs, q, HEADER, Be16(q[end], q[end + 1]));
      AnswersStep(host, svcs, q, end + 4, 0);
    }
  }
}
