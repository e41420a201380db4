/** Fixed-width integers of the Go sources, and the big-endian byte fields built from them. */
module Words {
  const TWO16 := 0x1_0000
  const TWO32 := 0x1_0000_0000

  type byte = x: int | 0 <= x < 0x100
  type u16 = x: int | 0 <= x < 0x1_0000
  type u32 = x: int | 0 <= x < 0x1_0000_0000

  /** A hardware address. */
  type Mac = s: seq<byte> | |s| == 6 witness [0, 0, 0, 0, 0, 0]

  datatype Option<T> = None | Some(value: T)

  /** An IPv4 address as `netip.Addr` holds it: the zero value is the invalid address. */
  datatype Addr = NoAddr | V4(a: byte, b: byte, c: byte, d: byte) {
    predicate IsValid() {
      V4?
    }

    /** The four bytes; an invalid address contributes zeros, as every caller that tests IsValid does. */
    function Bytes(): (s: seq<byte>)
      ensures |s| == 4
    {
      match this
      case NoAddr => [0, 0, 0, 0]
      case V4(a, b, c, d) => [a, b, c, d]
    }
  }

  function Be16(hi: byte, lo: byte): u16 {
    hi * 0x100 + lo
  }

  function Hi(w: u16): byte {
    w / 0x100
  }

  function Lo(w: u16): byte {
    w % 0x100
  }

  function Bytes16(w: u16): (s: seq<byte>)
    ensures |s| == 2 && Be16(s[0], s[1]) == w
  {
    [Hi(w), Lo(w)]
  }

  function Upper(w: u32): u16 {
    w / TWO16
  }

  function Lower(w: u32): u16 {
    w % TWO16
  }

  lemma Halves(u: u16, l: u16)
    ensures Upper(u * TWO16 + l) == u && Lower(u * TWO16 + l) == l
  {
  }

  lemma HalfBytes(hi: byte, lo: byte)
    ensures Hi(Be16(hi, lo)) == hi && Lo(Be16(hi, lo)) == lo
  {
  }

  function Be32(a: byte, b: byte, c: byte, d: byte): u32 {
    Be16(a, b) * TWO16 + Be16(c, d)
  }

  function Bytes32(w: u32): (s: seq<byte>)
    ensures |s| == 4 && Be32(s[0], s[1], s[2], s[3]) == w
  {
    Bytes16(Upper(w)) + Bytes16(Lower(w))
  }

  lemma Bytes32OfBe32(a: byte, b: byte, c: byte, d: byte)
    ensures Bytes32(Be32(a, b, c, d)) == [a, b, c, d]
  {
    HalfBytes(a, b);
    HalfBytes(c, d);
    Bytes32OfHalves(Be16(a, b), Be16(c, d), Be32(a, b, c, d));
  }

  lemma Bytes32OfHalves(u: u16, l: u16, w: u32)
    requires w == u * TWO16 + l
    ensures Bytes32(w) == Bytes16(u) + Bytes16(l)
  {
    assert Upper(w) == u && Lower(w) == l by {
      Halves(u, l);
    }
  }

  /** A word's bytes lowest first. */
  function Le32(v: u32): (s: seq<byte>)
    ensures |s| == 4
  {
    var b := Bytes32(v);
    [b[3], b[2], b[1], b[0]]
  }

  function FromLe32(s: seq<byte>): (v: u32)
    requires |s| == 4
    ensures Le32(v) == s
  {
    LeRoundTrip(s[0], s[1], s[2], s[3]);
    Be32(s[3], s[2], s[1], s[0])
  }

  lemma LeRoundTrip(a: byte, b: byte, c: byte, d: byte)
    ensures Le32(Be32(d, c, b, a)) == [a, b, c, d]
  {
    Bytes32OfBe32(d, c, b, a);
  }

  /** 32-bit addition of Go: the carry out is lost. */
  function Add32(x: u32, y: u32): u32 {
    if x + y < TWO32 then x + y else x + y - TWO32
  }

  /** Conversion to the 32-bit int of the target. */
  function AsInt(x: u32): int {
    if x < 0x8000_0000 then x else x - TWO32
  }

  function Zeros(n: nat): (s: seq<byte>)
    ensures |s| == n
  {
    seq(n, _ => 0)
  }

  function Pow2(n: nat): nat {
    if n == 0 then 1 else 2 * Pow2(n - 1)
  }

  function Min(x: int, y: int): int {
    if x < y then x else y
  }
}
