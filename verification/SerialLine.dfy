/**
 * An asynchronous serial line with eight data bits, no parity and one stop bit:
 * what a sender puts on it and when.  The clock is the system clock of both ends.
 */
module SerialLine {

  /** The data bits of a byte, least significant first. */
  type Byte = s: seq<bool> | |s| == 8 witness [false, false, false, false, false, false, false, false]

  const ONES: Byte := [true, true, true, true, true, true, true, true]

  /** A 32-bit register, least significant bit first. */
  type Bits = s: seq<bool> | |s| == 32 witness seq(32, _ => false)

  function Fill(n: nat, level: bool): (s: seq<bool>)
    ensures |s| == n
  {
    seq(n, _ => level)
  }

  /** The number that is `k` ones in binary. */
  function Ones(k: nat): nat { if k == 0 then 0 else 2 * Ones(k - 1) + 1 }

  /** A line level for every clock. */
  type Line = int -> bool

  datatype Offer = Nothing | Send(byte: Byte)

  /** The byte a sender accepts on each clock, if any. */
  type Feed = int -> Offer

  ghost predicate HighBefore(line: Line) { forall x | x < 0 :: line(x) }

  /** The line from `lo` up to but not including `hi` is `level`. */
  ghost predicate Holds(line: Line, lo: int, hi: int, level: bool) {
    forall x | lo <= x < hi :: line(x) == level
  }

  /** The bytes accepted before clock `n`. */
  function SentBefore(sent: Feed, n: int): seq<Byte>
    decreases n
  {
    if n <= 0 then []
    else
      SentBefore(sent, n - 1) + match sent(n - 1) case Nothing => [] case Send(b) => [b]
  }

  /** Nothing is accepted from `lo` up to but not including `hi`. */
  ghost predicate Quiet(sent: Feed, lo: int, hi: int) {
    forall t | lo <= t < hi :: sent(t) == Nothing
  }

  lemma {:induction false} QuietSends(sent: Feed, lo: int, hi: int)
    requires lo <= hi && Quiet(sent, lo, hi)
    ensures SentBefore(sent, lo) == SentBefore(sent, hi)
    decreases hi - lo
  {
    if lo < hi {
      QuietSends(sent, lo, hi - 1);
    }
  }

  /** One byte is sent at `a` and no other until `next`. */
  lemma OneSent(sent: Feed, a: int, b: Byte, next: int)
    requires 0 <= a < next && sent(a) == Send(b) && Quiet(sent, a + 1, next)
    ensures SentBefore(sent, next) == SentBefore(sent, a) + [b]
  {
    QuietSends(sent, a + 1, next);
  }

  /** Where bit `k` of a frame begins; bit 0 is the start bit and bit 9 the stop bit. */
  function BitAt(ct: nat, e: int, k: nat): (t: int)
    ensures t >= e
  {
    if k == 0 then e else BitAt(ct, e, k - 1) + ct
  }

  lemma {:induction false} BitAtIs(ct: nat, e: int, k: nat)
    ensures BitAt(ct, e, k) == e + k * ct
  {
    if k > 0 {
      BitAtIs(ct, e, k - 1);
    }
  }

  /** A frame of `ct` clocks a bit with its falling edge at `e`. */
  ghost predicate Framed(ct: nat, line: Line, e: int, b: Byte) {
    && Holds(line, e, e + ct, false)
    && (forall k | 0 <= k < 8 :: Holds(line, BitAt(ct, e, k + 1), BitAt(ct, e, k + 1) + ct, b[k]))
    && Holds(line, e + 9 * ct, e + 10 * ct, true)
  }

  /** No frame is under way when clock `a` comes. */
  ghost predicate Gap(ct: nat, sent: Feed, a: int) { Quiet(sent, a - 10 * ct + 1, a) }

  /**
   * The line `lag` clocks after `a`: the frame of the byte accepted at `a`, and no
   * other is accepted until it is over; high if none is under way.
   */
  ghost predicate CarriesAt(ct: nat, lag: nat, line: Line, sent: Feed, a: int) {
    match sent(a)
    case Send(b) => Framed(ct, line, a + lag, b) && Quiet(sent, a + 1, a + 10 * ct)
    case Nothing => Gap(ct, sent, a) ==> line(a + lag)
  }

  /** The line carries what is sent from clock 0 on, `lag` clocks late, and is high otherwise. */
  ghost predicate Carries(ct: nat, lag: nat, line: Line, sent: Feed) {
    && (forall x | x < lag :: line(x))
    && (forall t | t < 0 :: sent(t) == Nothing)
    && (forall a: nat :: CarriesAt(ct, lag, line, sent, a))
  }

  /** The receiver counts `c` clocks a bit, starting half a bit after the edge. */
  function SampleAt(c: nat, e: int, k: nat): int { BitAt(c, e + c / 2, k + 1) }

  /** Nine sampling points of `c` clocks stay inside their bits of `ct` clocks. */
  predicate Tolerates(c: nat, ct: nat) {
    9 * ct <= 9 * c + c / 2 < 10 * ct
  }

  lemma Scaled(n: nat, d: int, h: int)
    requires n <= 9 && 9 * d <= h && 0 <= h
    ensures n * d <= h
  {
    if d >= 0 {
      assert n * d + (9 - n) * d == 9 * d;
      assert (9 - n) * d >= 0;
    } else {
      assert n * d <= 0;
    }
  }

  lemma InWindow(c: nat, ct: nat, n: nat)
    requires Tolerates(c, ct) && 1 <= n <= 9
    ensures n * ct <= c / 2 + n * c < n * ct + ct
  {
    Scaled(n, ct - c, c / 2);
    assert n * (ct - c) == n * ct - n * c;
    if c <= ct {
      assert n * c <= n * ct;
    } else {
      Scaled(n, c - ct, ct - 1 - c / 2);
      assert n * (c - ct) == n * c - n * ct;
    }
  }

  /** If the ninth sample is inside the stop bit, then every sample is inside its own bit. */
  lemma SampleInBit(c: nat, ct: nat, e: int, k: nat)
    requires Tolerates(c, ct) && k < 9
    ensures BitAt(ct, e, k + 1) <= SampleAt(c, e, k) < BitAt(ct, e, k + 1) + ct
  {
    BitAtIs(ct, e, k + 1);
    BitAtIs(c, e + c / 2, k + 1);
    InWindow(c, ct, k + 1);
  }

  /** A receiver that keeps its distance to the sender samples the byte that was framed. */
  lemma SamplesTheByte(c: nat, ct: nat, line: Line, e: int, b: Byte, k: nat)
    requires Tolerates(c, ct) && Framed(ct, line, e, b) && k < 9
    ensures line(SampleAt(c, e, k)) == if k < 8 then b[k] else true
  {
    SampleInBit(c, ct, e, k);
    BitAtIs(ct, e, 9);
  }
}
