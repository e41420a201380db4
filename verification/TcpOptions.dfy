/** The option list of a SYN segment and the MSS found in it (stack/tcp.go). */
module TcpOptions {
  import opened Words
  import Tcp

  const KIND_MSS := 2

  datatype Opt = Opt(kind: byte, val: seq<byte>)

  /** The options of a header: ones are padding, and the list stops at a zero, at the end, or at an option whose
      length is impossible. */
  function Options(s: seq<byte>): seq<Opt>
    decreases |s|
  {
    if s == [] || s[0] == 0 then []
    else if s[0] == 1 then Options(s[1..])
    else if |s| < 2 || s[1] < 2 || s[1] as int > |s| then []
    else [Opt(s[0], s[2..s[1]])] + Options(s[s[1]..])
  }

  /** The first MSS option of the right length, or the default. */
  function FirstMss(os: seq<Opt>): u16 {
    if os == [] then Tcp.MAX_SEG
    else if os[0].kind == KIND_MSS && |os[0].val| == 2 then Be16(os[0].val[0], os[0].val[1])
    else FirstMss(os[1..])
  }

  ghost predicate Encodable(os: seq<Opt>) {
    forall k | 0 <= k < |os| :: os[k].kind > 1 && |os[k].val| <= 0xFD
  }

  function EncodeOne(o: Opt): seq<byte>
    requires |o.val| <= 0xFD
  {
    [o.kind, |o.val| + 2] + o.val
  }

  function Ones(n: nat): (s: seq<byte>)
    ensures |s| == n
  {
    seq(n, _ => 1)
  }

  /** Options with any number of padding bytes in front of each. */
  function Encode(os: seq<Opt>, pads: seq<nat>): seq<byte>
    requires Encodable(os) && |pads| == |os|
  {
    if os == [] then []
    else Ones(pads[0]) + EncodeOne(os[0]) + Encode(os[1..], pads[1..])
  }

  lemma {:induction false} SkipPads(n: nat, s: seq<byte>)
    ensures Options(Ones(n) + s) == Options(s)
  {
    if n == 0 {
      assert Ones(n) + s == s;
    } else {
      SkipPads(n - 1, s);
      var t := Ones(n) + s;
      assert t[1..] == Ones(n - 1) + s;
    }
  }

  lemma OneOption(o: Opt, rest: seq<byte>)
    requires o.kind > 1 && |o.val| <= 0xFD
    ensures Options(EncodeOne(o) + rest) == [o] + Options(rest)
  {
    var s := EncodeOne(o) + rest;
    assert s[2..s[1]] == o.val && s[s[1]..] == rest;
  }

  /** Scanning recovers the encoded options and goes on behind them. */
  lemma {:induction false} OptionsOfEncoding(os: seq<Opt>, pads: seq<nat>, rest: seq<byte>)
    requires Encodable(os) && |pads| == |os|
    ensures Options(Encode(os, pads) + rest) == os + Options(rest)
    decreases |os|
  {
    if os == [] {
      assert [] + rest == rest && [] + Options(rest) == Options(rest);
    } else {
      var tail := Encode(os[1..], pads[1..]);
      var o := EncodeOne(os[0]);
      assert Encode(os, pads) == Ones(pads[0]) + o + tail;
      hide Options, EncodeOne, Ones, Encode;
      OptionsOfEncoding(os[1..], pads[1..], rest);
      OneOption(os[0], tail + rest);
      SkipPads(pads[0], o + (tail + rest));
      Regroup(Ones(pads[0]), o, tail, rest);
      Cons(os, Options(rest));
    }
  }

  lemma Cons(os: seq<Opt>, more: seq<Opt>)
    requires os != []
    ensures os + more == [os[0]] + (os[1..] + more)
  {
  }

  lemma Regroup(a: seq<byte>, b: seq<byte>, c: seq<byte>, d: seq<byte>)
    ensures (a + b + c) + d == a + (b + (c + d))
  {
  }

  lemma ScanStep(opts: seq<byte>, i: nat)
    requires i < |opts|
    ensures var n := if i + 1 < |opts| then opts[i + 1] as int else 0;
            Options(opts[i..]) ==
            if opts[i] == 0 then []
            else if opts[i] == 1 then Options(opts[i + 1..])
            else if i + 1 >= |opts| || n < 2 || i + n > |opts| then []
            else [Opt(opts[i], opts[i + 2..i + n])] + Options(opts[i + n..])
  {
    var s := opts[i..];
    assert s[1..] == opts[i + 1..];
    if i + 1 < |opts| && 2 <= opts[i + 1] as int <= |opts| - i {
      var n: nat := opts[i + 1];
      assert s[n..] == opts[i + n..] && s[2..n] == opts[i + 2..i + n];
    }
  }

  /** The MSS of the first well-formed MSS option of the list. */
  method ParseMss(opts: seq<byte>) returns (mss: u16)
    ensures mss == FirstMss(Options(opts))
  {
    hide Options;
    var i := 0;
    assert opts[0..] == opts;
    while i < |opts|
      invariant i <= |opts|
      invariant FirstMss(Options(opts[i..])) == FirstMss(Options(opts))
      decreases |opts| - i
    {
      ScanStep(opts, i);
      var kind := opts[i];
      if kind == 0 {
        return Tcp.MAX_SEG;
      }
      if kind == 1 {
        i := i + 1;
        continue;
      }
      if i + 1 >= |opts| {
        return Tcp.MAX_SEG;
      }
      var optLen: nat := opts[i + 1];
      if optLen < 2 || i + optLen > |opts| {
        return Tcp.MAX_SEG;
      }
      if kind == KIND_MSS && optLen == 4 {
        return Be16(opts[i + 2], opts[i + 3]);
      }
      ghost var rest := Options(opts[i + optLen..]);
      assert ([Opt(kind, opts[i + 2..i + optLen])] + rest)[1..] == rest;
      i := i + optLen;
    }
    Nothing(opts[|opts|..]);
    mss := Tcp.MAX_SEG;
  }

  /** The option list a SYN is sent with. */
  lemma MssAlone(mss: u16)
    ensures FirstMss(Options([KIND_MSS, 4] + Bytes16(mss))) == mss
  {
    var o := Opt(KIND_MSS, Bytes16(mss));
    assert [KIND_MSS, 4] + Bytes16(mss) == EncodeOne(o) + [];
    hide Options, EncodeOne, Bytes16;
    OneOption(o, []);
    Nothing([]);
  }

  lemma Nothing(s: seq<byte>)
    requires s == []
    ensures Options(s) == []
  {
  }
}
