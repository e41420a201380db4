/** The Internet checksum (section 1 of RFC 1071) as stack/ipv4.go computes it. */
module Checksum {
  import opened Words

  // ---------------------------------------------------------------- the code

  /** The representative modulo 0xFFFF that one's-complement addition keeps: 0 only for a zero sum. */
  function Canon(n: nat): u16 {
    if n <= 0xFFFF then n else Canon(n - 0xFFFF)
  }

  /** What the byte at offset i adds to the sum of words: bytes at even offsets are high bytes. */
  function Term(i: nat, b: byte): nat {
    if i % 2 == 0 then b * 0x100 else b
  }

  /** The plain sum of the big-endian 16-bit words of data; a last odd byte is a high byte. */
  function WordSum(data: seq<byte>): nat {
    if data == [] then 0
    else WordSum(data[..|data| - 1]) + Term(|data| - 1, data[|data| - 1])
  }

  /** The running sum of the loop: 32-bit additions from an initial value. */
  function Sum32(data: seq<byte>, initial: u32): u32 {
    if data == [] then initial
    else Add32(Sum32(data[..|data| - 1], initial), Term(|data| - 1, data[|data| - 1]))
  }

  /** What the checksum routine returns: the complement of the folded sum. */
  function Value(data: seq<byte>, initial: u32): u16 {
    0xFFFF - Canon(Sum32(data, initial))
  }

  method Compute(data: seq<byte>, initial: u32) returns (cs: u16)
    ensures cs == Value(data, initial)
  {
    var sum: u32 := initial;
    var n := |data|;
    var i := 0;
    while i + 1 < n
      invariant 0 <= i <= n && i % 2 == 0
      invariant sum == Sum32(data[..i], initial)
    {
      Sum32Two(data, i, initial);
      sum := Add32(sum, Be16(data[i], data[i + 1]));
      i := i + 2;
    }
    assert data[..n] == data;
    if n % 2 != 0 {
      assert i == n - 1;
      assert data[..n][..i] == data[..i];
      sum := Add32(sum, 0x100 * (data[n - 1] as int));
    }
    ghost var total := sum;
    while sum / TWO16 != 0
      invariant Canon(sum) == Canon(total)
      decreases sum
    {
      FoldKeepsCanon(sum);
      sum := sum % TWO16 + sum / TWO16;
    }
    cs := 0xFFFF - sum;
  }

  method PseudoHeader(src: Addr, dst: Addr, protocol: byte, length: u16) returns (sum: u32)
    ensures sum == WordSum(PseudoBytes(src, dst, protocol, length))
    ensures sum <= 5 * 0xFFFF + 0xFF
  {
    var s, d := src.Bytes(), dst.Bytes();
    sum := 0;
    sum := Add32(sum, Be16(s[0], s[1]));
    sum := Add32(sum, Be16(s[2], s[3]));
    sum := Add32(sum, Be16(d[0], d[1]));
    sum := Add32(sum, Be16(d[2], d[3]));
    sum := Add32(sum, protocol);
    sum := Add32(sum, length);
    PseudoSum(src, dst, protocol, length);
  }

  /** The twelve bytes of the pseudo-header, in transmission order (RFC 768). */
  function PseudoBytes(src: Addr, dst: Addr, protocol: byte, length: u16): (s: seq<byte>)
    ensures |s| == 12
  {
    src.Bytes() + dst.Bytes() + [0, protocol] + Bytes16(length)
  }

  // ---------------------------------------------------------------- the reference

  /** Addition with end-around carry. */
  function OnesAdd(x: u16, y: u16): u16 {
    if x + y < TWO16 then x + y else x + y - 0xFFFF
  }

  /** The 16-bit words of data in order, an odd tail padded with a zero byte. */
  function WordsOf(data: seq<byte>): seq<u16> {
    if data == [] then []
    else if |data| == 1 then [Be16(data[0], 0)]
    else [Be16(data[0], data[1])] + WordsOf(data[2..])
  }

  function OnesSum(ws: seq<u16>): u16 {
    if ws == [] then 0 else OnesAdd(ws[0], OnesSum(ws[1..]))
  }

  // ---------------------------------------------------------------- lemmas

  lemma WordSumStep(data: seq<byte>, i: nat)
    requires i < |data|
    ensures WordSum(data[..i + 1]) == WordSum(data[..i]) + Term(i, data[i])
  {
    assert data[..i + 1][..i] == data[..i];
  }

  /** One round of the folding loop stays in the class modulo 0xFFFF and gets smaller. */
  lemma FoldKeepsCanon(sum: u32)
    requires sum >= TWO16
    ensures 0 < sum % TWO16 + sum / TWO16 < sum
    ensures Canon(sum % TWO16 + sum / TWO16) == Canon(sum)
  {
    var hi := sum / TWO16;
    assert sum == hi * 0xFFFF + (sum % TWO16 + hi);
    CanonShift(sum % TWO16 + hi, hi);
  }

  lemma {:induction false} CanonShift(n: nat, k: nat)
    requires n > 0
    ensures Canon(n + k * 0xFFFF) == Canon(n)
  {
    if k == 0 {
    } else {
      CanonShift(n, k - 1);
    }
  }

  lemma Sum32Two(data: seq<byte>, i: nat, initial: u32)
    requires i % 2 == 0 && i + 1 < |data|
    ensures Sum32(data[..i + 2], initial) == Add32(Sum32(data[..i], initial), Be16(data[i], data[i + 1]))
  {
    assert data[..i + 2][..i + 1] == data[..i + 1];
    assert data[..i + 1][..i] == data[..i];
  }

  lemma {:induction false} Sum32IsPlain(data: seq<byte>, initial: u32)
    requires initial + WordSum(data) < TWO32
    ensures Sum32(data, initial) == initial + WordSum(data)
  {
    if data == [] {
    } else {
      Sum32IsPlain(data[..|data| - 1], initial);
    }
  }

  lemma {:induction false} WordSumBound(data: seq<byte>)
    ensures WordSum(data) <= (|data| + 1) / 2 * 0xFFFF
    ensures |data| % 2 == 1 ==> WordSum(data) <= |data| / 2 * 0xFFFF + 0xFF00
  {
    if data == [] {
    } else {
      WordSumBound(data[..|data| - 1]);
    }
  }

  lemma {:induction false} WordSumConcat(a: seq<byte>, b: seq<byte>)
    requires |a| % 2 == 0
    ensures WordSum(a + b) == WordSum(a) + WordSum(b)
  {
    if b == [] {
      assert a + b == a;
    } else {
      var n := |b| - 1;
      assert (a + b)[..|a + b| - 1] == a + b[..n] && (a + b)[|a + b| - 1] == b[n];
      EvenShift(|a|, n, b[n]);
      hide Term;
      WordSumConcat(a, b[..n]);
    }
  }

  lemma EvenShift(k: nat, i: nat, b: byte)
    requires k % 2 == 0
    ensures Term(k + i, b) == Term(i, b)
  {
  }

  lemma {:induction false} WordSumUpdate(data: seq<byte>, k: nat, v: byte)
    requires k < |data|
    ensures WordSum(data[k := v]) == WordSum(data) + Term(k, v) - Term(k, data[k])
  {
    var n := |data| - 1;
    if k < n {
      WordSumUpdate(data[..n], k, v);
      assert data[k := v][..n] == data[..n][k := v];
    } else {
      assert data[k := v][..n] == data[..n];
    }
  }

  lemma TwoBytes(w: seq<byte>)
    requires |w| == 2
    ensures WordSum(w) == Be16(w[0], w[1])
  {
    WordSumStep(w, 0);
    WordSumStep(w, 1);
    assert w[..2] == w && w[..0] == [];
  }

  lemma FourBytes(w: seq<byte>)
    requires |w| == 4
    ensures WordSum(w) == Be16(w[0], w[1]) + Be16(w[2], w[3])
  {
    assert w == w[..2] + w[2..];
    WordSumConcat(w[..2], w[2..]);
    TwoBytes(w[..2]);
    TwoBytes(w[2..]);
  }

  lemma PseudoSum(src: Addr, dst: Addr, protocol: byte, length: u16)
    ensures var s, d := src.Bytes(), dst.Bytes();
            WordSum(PseudoBytes(src, dst, protocol, length)) ==
            Be16(s[0], s[1]) + Be16(s[2], s[3]) + Be16(d[0], d[1]) + Be16(d[2], d[3]) + protocol + length
  {
    var s, d := src.Bytes(), dst.Bytes();
    var tail := [0, protocol] + Bytes16(length);
    assert PseudoBytes(src, dst, protocol, length) == (s + d) + tail;
    WordSumConcat(s + d, tail);
    WordSumConcat(s, d);
    FourBytes(s);
    FourBytes(d);
    FourBytes(tail);
  }

  /** The words added up without any carrying. */
  function Total(ws: seq<u16>): nat {
    if ws == [] then 0 else ws[0] + Total(ws[1..])
  }

  lemma {:induction false} WordSumIsTotal(data: seq<byte>)
    ensures WordSum(data) == Total(WordsOf(data))
    decreases |data|
  {
    if |data| == 1 {
      assert WordsOf(data)[1..] == [];
      assert WordSum(data) == WordSum(data[..0]) + Term(0, data[0]);
    } else if |data| > 1 {
      var w, rest := [data[0], data[1]], data[2..];
      assert data == w + rest;
      WordSumConcat(w, rest);
      TwoBytes(w);
      WordSumIsTotal(rest);
      assert WordsOf(data)[1..] == WordsOf(rest);
    }
  }

  /** Folding a plain sum is the same as carrying around at every addition. */
  lemma {:induction false} OnesSumIsCanon(ws: seq<u16>)
    ensures OnesSum(ws) == Canon(Total(ws))
  {
    if ws == [] {
    } else {
      OnesSumIsCanon(ws[1..]);
      CanonAdd(ws[0], Total(ws[1..]));
    }
  }

  lemma {:induction false} CanonAdd(w: u16, n: nat)
    ensures OnesAdd(w, Canon(n)) == Canon(w + n)
  {
    if n <= 0xFFFF {
    } else {
      CanonAdd(w, n - 0xFFFF);
    }
  }

  /** No 32-bit carry is lost for any IP payload together with its pseudo-header. */
  lemma NoOverflow(data: seq<byte>, initial: u32)
    requires |data| <= 0x1_0000 && initial <= 6 * 0xFFFF
    ensures initial + WordSum(data) < TWO32
    ensures Value(data, initial) == 0xFFFF - Canon(initial + WordSum(data))
  {
    WordSumBound(data);
    Sum32IsPlain(data, initial);
  }

  /** The routine computes the complement of the one's-complement sum of all words. */
  lemma ChecksumIsOnesComplementSum(data: seq<byte>)
    requires |data| <= 0x1_0000
    ensures Value(data, 0) == 0xFFFF - OnesSum(WordsOf(data))
  {
    hide *;
    NoOverflow(data, 0);
    WordSumIsTotal(data);
    OnesSumIsCanon(WordsOf(data));
  }

  /** Starting from the pseudo-header sum equals checksumming the pseudo-header bytes in front. */
  lemma PseudoHeaderPrepends(src: Addr, dst: Addr, protocol: byte, length: u16, data: seq<byte>, initial: u32)
    requires |data| <= 0xFFFF
    requires initial == WordSum(PseudoBytes(src, dst, protocol, length))
    ensures Value(data, initial) == 0xFFFF - OnesSum(WordsOf(PseudoBytes(src, dst, protocol, length) + data))
  {
    PrefixAsInitial(PseudoBytes(src, dst, protocol, length), data, initial);
  }

  lemma PrefixAsInitial(prefix: seq<byte>, data: seq<byte>, initial: u32)
    requires |data| <= 0xFFFF && |prefix| % 2 == 0 && |prefix| <= 12
    requires initial == WordSum(prefix)
    ensures Value(data, initial) == 0xFFFF - OnesSum(WordsOf(prefix + data))
  {
    hide *;
    WordSumBound(prefix);
    NoOverflow(data, initial);
    WordSumConcat(prefix, data);
    WordSumIsTotal(prefix + data);
    OnesSumIsCanon(WordsOf(prefix + data));
  }

  /** data with a 16-bit big-endian field stored at offset k. */
  function Store(data: seq<byte>, k: nat, w: u16): (r: seq<byte>)
    requires k + 1 < |data|
    ensures |r| == |data|
  {
    data[k := Hi(w)][k + 1 := Lo(w)]
  }

  lemma StoreSum(data: seq<byte>, k: nat, w: u16)
    requires k + 1 < |data| && k % 2 == 0
    ensures WordSum(Store(data, k, w)) == WordSum(data) - Be16(data[k], data[k + 1]) + w
  {
    var hi: byte, lo: byte := Hi(w), Lo(w);
    assert w == hi * 0x100 + lo;
    var once := data[k := hi];
    WordSumUpdate(data, k, hi);
    WordSumUpdate(once, k + 1, lo);
    TermParity(k, hi, data[k]);
    TermParity(k, lo, data[k + 1]);
  }

  lemma TermParity(k: nat, x: byte, y: byte)
    requires k % 2 == 0
    ensures Term(k, x) == 0x100 * x as int && Term(k, y) == 0x100 * y as int
    ensures Term(k + 1, x) == x && Term(k + 1, y) == y
  {
  }

  /** UDP never transmits a zero checksum (RFC 768). */
  function UdpField(cs: u16): u16 {
    if cs == 0 then 0xFFFF else cs
  }

  /** Storing the result in a zeroed even-offset field makes re-checking give zero,
      also when UDP's substitution was applied. */
  lemma StoredChecksumVerifies(data: seq<byte>, initial: u32, k: nat)
    requires |data| <= 0x1_0000 && initial <= 6 * 0xFFFF
    requires k + 1 < |data| && k % 2 == 0 && data[k] == data[k + 1] == 0
    ensures Value(Store(data, k, Value(data, initial)), initial) == 0
    ensures Value(Store(data, k, UdpField(Value(data, initial))), initial) == 0
  {
    NoOverflow(data, initial);
    var cs := Value(data, initial);
    StoredFieldSum(data, initial, k, cs);
    StoredFieldSum(data, initial, k, UdpField(cs));
    CanonComplement(initial + WordSum(data));
  }

  lemma StoredFieldSum(data: seq<byte>, initial: u32, k: nat, w: u16)
    requires |data| <= 0x1_0000 && initial <= 6 * 0xFFFF
    requires k + 1 < |data| && k % 2 == 0
    ensures initial + WordSum(data) - Be16(data[k], data[k + 1]) >= 0
    ensures Value(Store(data, k, w), initial) ==
            0xFFFF - Canon(initial + WordSum(data) - Be16(data[k], data[k + 1]) + w)
  {
    StoreSum(data, k, w);
    StoreSum(data, k, 0);
    NoOverflow(Store(data, k, w), initial);
  }

  lemma {:induction false} CanonComplement(n: nat)
    ensures Canon(n + (0xFFFF - Canon(n))) == 0xFFFF
    ensures Canon(n) == 0xFFFF ==> Canon(n + 0xFFFF) == 0xFFFF
  {
    if n <= 0xFFFF {
    } else {
      CanonComplement(n - 0xFFFF);
    }
  }

  /** Corrupting one aligned word of a message that checks is noticed, except for exchanging
      0x0000 with 0xFFFF while some other word is non-zero. */
  lemma SingleWordCorruption(data: seq<byte>, initial: u32, k: nat, w: u16)
    requires |data| <= 0x1_0000 && initial <= 6 * 0xFFFF
    requires k + 1 < |data| && k % 2 == 0
    requires Value(data, initial) == 0
    ensures var was := Be16(data[k], data[k + 1]);
            Value(Store(data, k, w), initial) == 0 <==>
            w == was || (w == 0xFFFF && was == 0)
            || (w == 0 && was == 0xFFFF && initial + WordSum(data) > 0xFFFF)
  {
    hide *;
    ChecksAfterStore(data, initial, k, w);
    ChecksAsSum(data, initial);
    CorruptionCases(initial + WordSum(data), Be16(data[k], data[k + 1]), w);
  }

  lemma ChecksAsSum(data: seq<byte>, initial: u32)
    requires |data| <= 0x1_0000 && initial <= 6 * 0xFFFF
    ensures Value(data, initial) == 0 <==> Canon(initial + WordSum(data)) == 0xFFFF
  {
    NoOverflow(data, initial);
  }

  lemma ChecksAfterStore(data: seq<byte>, initial: u32, k: nat, w: u16)
    requires |data| <= 0x1_0000 && initial <= 6 * 0xFFFF
    requires k + 1 < |data| && k % 2 == 0
    ensures initial + WordSum(data) - Be16(data[k], data[k + 1]) >= 0
    ensures Value(Store(data, k, w), initial) == 0 <==>
            Canon(initial + WordSum(data) - Be16(data[k], data[k + 1]) + w) == 0xFFFF
  {
    StoredFieldSum(data, initial, k, w);
  }

  lemma CorruptionCases(total: nat, was: u16, w: u16)
    requires was <= total && Canon(total) == 0xFFFF
    ensures Canon(total - was + w) == 0xFFFF <==>
            w == was || (w == 0xFFFF && was == 0) || (w == 0 && was == 0xFFFF && total > 0xFFFF)
  {
    CanonNear(total, w - was);
  }

  lemma {:induction false} CanonNear(n: nat, d: int)
    requires Canon(n) == 0xFFFF && -0xFFFF <= d <= 0xFFFF && n + d >= 0
    ensures Canon(n + d) == 0xFFFF <==> d == 0 || d == 0xFFFF || (d == -0xFFFF && n > 0xFFFF)
    decreases n
  {
    if n > 2 * 0xFFFF {
      CanonNear(n - 0xFFFF, d);
    } else {
      assert n == 0xFFFF || n == 2 * 0xFFFF;
      assert n + d > 0xFFFF ==> Canon(n + d) == Canon(n + d - 0xFFFF);
      assert n + d > 2 * 0xFFFF ==> Canon(n + d - 0xFFFF) == n + d - 2 * 0xFFFF;
    }
  }
}
