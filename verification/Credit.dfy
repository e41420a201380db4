/** The SDPCM credit window as a log of what the driver encodes and which credits it takes up
    (ioctl.go, wifi.go). */
module Credit {
  import opened Words

  const MAX_WINDOW := 0x40

  datatype Window = Window(next: byte, limit: byte)

  /** init.go starts with sequence number 0 and one credit. */
  const START := Window(0, 1)

  datatype Entry = Encoded(num: byte) | Granted(credit: byte)

  function Add8(x: byte, n: byte): byte {
    if x + n < 0x100 then x + n else x + n - 0x100
  }

  function Sub8(x: byte, y: byte): byte {
    if x >= y then x - y else x - y + 0x100
  }

  /** A credit more than 0x40 ahead is not believed; two frames are let through instead. */
  function Clamp(credit: byte, next: byte): byte {
    if Sub8(credit, next) > MAX_WINDOW then Add8(next, 2) else credit
  }

  function Open(w: Window): byte {
    Sub8(w.limit, w.next)
  }

  function Step(w: Window, e: Entry): Window {
    match e
    case Encoded(_) => w.(next := Add8(w.next, 1))
    case Granted(credit) => w.(limit := Clamp(credit, w.next))
  }

  function Replay(log: seq<Entry>): Window {
    if log == [] then START else Step(Replay(log[..|log| - 1]), log[|log| - 1])
  }

  /** A header is encoded only with credit, and carries the current sequence number. */
  ghost predicate Legal(log: seq<Entry>) {
    log == [] || (
      && Legal(log[..|log| - 1])
      && var w, e := Replay(log[..|log| - 1]), log[|log| - 1];
         e.Encoded? ==> w.next != w.limit && e.num == w.next)
  }

  function Numbers(log: seq<Entry>): seq<byte> {
    if log == [] then []
    else if log[|log| - 1].Encoded? then Numbers(log[..|log| - 1]) + [log[|log| - 1].num]
    else Numbers(log[..|log| - 1])
  }

  /** No credit is taken up in log[i..j]. */
  ghost predicate Quiet(log: seq<Entry>, i: nat, j: nat)
    requires i <= j <= |log|
  {
    forall k | i <= k < j :: log[k].Encoded?
  }

  function Wrap8(n: nat): byte {
    n % 0x100
  }

  lemma WrapNext(n: nat)
    ensures Wrap8(n + 1) == Add8(Wrap8(n), 1)
  {
  }

  /** The open window never exceeds 0x40 frames. */
  lemma {:induction false} WindowBounded(log: seq<Entry>)
    requires Legal(log)
    ensures Open(Replay(log)) <= MAX_WINDOW
  {
    if log == [] {
    } else {
      WindowBounded(log[..|log| - 1]);
    }
  }

  /** The numbers encoded run 0, 1, 2, ... modulo 256, without gap or repeat. */
  lemma {:induction false} NumbersConsecutive(log: seq<Entry>)
    requires Legal(log)
    ensures Replay(log).next == Wrap8(|Numbers(log)|)
    ensures forall i | 0 <= i < |Numbers(log)| :: Numbers(log)[i] == Wrap8(i)
  {
    if log == [] {
    } else {
      var prev := log[..|log| - 1];
      NumbersConsecutive(prev);
      WrapNext(|Numbers(prev)|);
    }
  }

  /** Since the last credit was taken up, as many frames went out as the window has closed. */
  lemma {:induction false} ClosesByOne(log: seq<Entry>, k: nat)
    requires Legal(log) && k <= |log|
    requires Quiet(log, k, |log|)
    ensures Legal(log[..k])
    ensures Open(Replay(log)) + (|log| - k) == Open(Replay(log[..k]))
    decreases |log|
  {
    if k < |log| {
      var prev := log[..|log| - 1];
      ClosesByOne(prev, k);
      assert prev[..k] == log[..k];
    } else {
      assert log[..k] == log;
    }
  }

  /** Between two credit updates at most 64 frames go out, and before the first only one. */
  lemma AtMost64(log: seq<Entry>, i: nat, j: nat)
    requires Legal(log) && i <= j <= |log| && Quiet(log, i, j)
    ensures j - i <= MAX_WINDOW
    ensures i == 0 ==> j <= 1
  {
    LegalPrefix(log, j);
    ClosesByOne(log[..j], i);
    assert log[..j][..i] == log[..i];
    WindowBounded(log[..i]);
    assert log[..0] == [];
  }

  lemma {:induction false} LegalPrefix(log: seq<Entry>, j: nat)
    requires Legal(log) && j <= |log|
    ensures Legal(log[..j])
  {
    if j < |log| {
      var prev := log[..|log| - 1];
      LegalPrefix(prev, j);
      assert prev[..j] == log[..j];
    } else {
      assert log[..j] == log;
    }
  }
}
