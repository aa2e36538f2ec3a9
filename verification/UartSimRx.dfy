/**
 * UARTSIM, the software end of the serial line in simulation: the receive half
 * of `rawtick`, set up for eight data bits, no parity and one stop bit.
 */
module UartSimRx {
  import opened SerialLine

  /** The receive half: whether inside a frame, and what it counts. */
  datatype Rx = Rx(last: bool, chg: int, receiving: bool, baud: int, busy: nat, data: Bits)

  /** The tick ends a frame: the stop bit has been sampled and a bit time has gone by. */
  predicate Completes(s: Rx) { s.receiving && s.baud <= 0 && s.busy >= 256 }

  /** The byte a tick writes out, if any. */
  function Emits(s: Rx): Offer { if Completes(s) then Send(s.data[23..31]) else Nothing }

  /** The change counter after a tick that sees the level `tx`. */
  function Change(s: Rx, tx: bool): int { if !tx && s.last then 0 else s.chg + 1 }

  function RxNext(c: nat, s: Rx, tx: bool): Rx {
    var chg := Change(s, tx);
    if !s.receiving then
      if tx then Rx(tx, chg, false, s.baud, s.busy, s.data)
      else Rx(tx, chg, true, c + c / 2 - 1 - chg, 0, Fill(32, false))
    else if s.baud > 0 then Rx(tx, chg, true, s.baud - 1, s.busy, s.data)
    else if Completes(s) then Rx(tx, chg, false, c - 1, s.busy, s.data)
    else Rx(tx, chg, true, c - 1, 2 * s.busy + 1, s.data[1..] + [tx])
  }

  /** `tr` holds the receive half on every tick of a run that watches `line`; only its state is set at first. */
  ghost predicate RxRuns(c: nat, line: Line, tr: nat -> Rx) {
    && 3 <= c && !tr(0).receiving
    && forall t: nat :: RxSteps(c, line, tr, t)
  }

  predicate RxSteps(c: nat, line: Line, tr: nat -> Rx, t: nat) {
    tr(t + 1) == RxNext(c, tr(t), line(t))
  }

  /** The bytes written out before tick `t`. */
  function Received(tr: nat -> Rx, t: nat): seq<Byte> {
    if t == 0 then []
    else Received(tr, t - 1) + match Emits(tr(t - 1)) case Nothing => [] case Send(b) => [b]
  }

  lemma {:induction false} ReceivedGrows(tr: nat -> Rx, t: nat, u: nat)
    requires t <= u
    ensures Received(tr, t) <= Received(tr, u)
    decreases u - t
  {
    if t < u {
      ReceivedGrows(tr, t, u - 1);
    }
  }

  /** While the line stays low the change counter has counted the ticks since the edge, whatever else goes on. */
  lemma {:induction false} CountsFromEdge(c: nat, line: Line, tr: nat -> Rx, e: nat, x: nat)
    requires RxRuns(c, line, tr) && 0 < e <= x && line(e - 1) && Holds(line, e, x + 1, false)
    ensures Change(tr(x), line(x)) == x - e
    decreases x
  {
    assert RxSteps(c, line, tr, x - 1);
    if e < x {
      CountsFromEdge(c, line, tr, e, x - 1);
    }
  }

  lemma {:induction false} StaysIdle(c: nat, line: Line, tr: nat -> Rx, u: nat, t: nat)
    requires RxRuns(c, line, tr) && u <= t && !tr(u).receiving && Holds(line, u, t, true)
    ensures !tr(t).receiving && Received(tr, t) == Received(tr, u)
    decreases t
  {
    if u < t {
      StaysIdle(c, line, tr, u, t - 1);
      assert RxSteps(c, line, tr, t - 1);
    }
  }

  /** Inside a frame: `k` bits sampled, the next tick that samples is `wait` ticks away. */
  predicate Waits(s: Rx, wait: int, busy: nat, data: Bits) {
    s.receiving && s.baud == wait && s.busy == busy && s.data == data
  }

  lemma {:induction false} CountsDown(c: nat, line: Line, tr: nat -> Rx, t: nat, wait: nat, busy: nat, data: Bits, j: nat)
    requires RxRuns(c, line, tr) && Waits(tr(t), wait, busy, data) && j <= wait
    ensures Waits(tr(t + j), wait - j, busy, data) && Received(tr, t + j) == Received(tr, t)
    decreases j
  {
    if j > 0 {
      CountsDown(c, line, tr, t, wait, busy, data, j - 1);
      assert RxSteps(c, line, tr, t + j - 1);
    }
  }

  /** What the register holds after the samples `got`. */
  function Gathered(got: seq<bool>): Bits
    requires |got| <= 32
  {
    Fill(32 - |got|, false) + got
  }

  lemma Gather(got: seq<bool>, level: bool)
    requires |got| < 32
    ensures Gathered(got)[1..] + [level] == Gathered(got + [level])
  {}

  lemma OnesComplete(k: nat)
    requires k <= 9
    ensures Ones(k) >= 256 <==> k == 9
  {
    assert Ones(1) == 1 && Ones(2) == 3 && Ones(3) == 7 && Ones(4) == 15;
    assert Ones(5) == 31 && Ones(6) == 63 && Ones(7) == 127 && Ones(8) == 255;
  }

  /** The samples of a whole frame. */
  function Samples(b: Byte): seq<bool> { b + [true] }

  /** The receiver was started by the edge at `e`, and will take sample `k` on its tick. */
  ghost predicate Ready(c: nat, tr: nat -> Rx, e: nat, b: Byte, k: nat, before: seq<Byte>)
    requires k <= 9
  {
    var t := SampleAt(c, e, k);
    t >= 0 && Waits(tr(t), 0, Ones(k), Gathered(Samples(b)[..k])) && Received(tr, t) == before
  }

  /** However late the receiver sees the start bit, it counts from the edge. */
  lemma Start(c: nat, line: Line, tr: nat -> Rx, u: nat, e: nat, b: Byte)
    requires RxRuns(c, line, tr) && !tr(u).receiving && 0 < e <= u < e + c + c / 2
    requires line(e - 1) && Holds(line, e, u + 1, false)
    ensures Ready(c, tr, e, b, 0, Received(tr, u))
  {
    CountsFromEdge(c, line, tr, e, u);
    assert RxSteps(c, line, tr, u);
    var wait := c + c / 2 - 1 - (u - e);
    assert Gathered([]) == Fill(32, false);
    assert Samples(b)[..0] == [];
    CountsDown(c, line, tr, u + 1, wait, 0, Gathered([]), wait);
    BitAtIs(c, e + c / 2, 1);
  }

  lemma Sampling(c: nat, line: Line, tr: nat -> Rx, t: nat, busy: nat, got: seq<bool>)
    requires RxRuns(c, line, tr) && busy < 256 && |got| < 32 && Waits(tr(t), 0, busy, Gathered(got))
    ensures Waits(tr(t + c), 0, 2 * busy + 1, Gathered(got + [line(t)])) && Received(tr, t + c) == Received(tr, t)
  {
    assert RxSteps(c, line, tr, t);
    Gather(got, line(t));
    CountsDown(c, line, tr, t + 1, c - 1, 2 * busy + 1, Gathered(got + [line(t)]), c - 1);
  }

  lemma TakesSample(c: nat, line: Line, tr: nat -> Rx, e: nat, b: Byte, k: nat, before: seq<Byte>)
    requires RxRuns(c, line, tr) && k < 9 && Ready(c, tr, e, b, k, before)
    requires line(SampleAt(c, e, k)) == Samples(b)[k]
    ensures Ready(c, tr, e, b, k + 1, before)
  {
    var t := SampleAt(c, e, k);
    OnesComplete(k);
    assert Samples(b)[..k] + [line(t)] == Samples(b)[..k + 1];
    Sampling(c, line, tr, t, Ones(k), Samples(b)[..k]);
    assert SampleAt(c, e, k + 1) == t + c;
  }

  lemma {:induction false} TakesSamples(c: nat, line: Line, tr: nat -> Rx, e: nat, b: Byte, k: nat, before: seq<Byte>)
    requires RxRuns(c, line, tr) && k <= 9 && Ready(c, tr, e, b, 0, before)
    requires forall j | 0 <= j < 9 :: line(SampleAt(c, e, j)) == Samples(b)[j]
    ensures Ready(c, tr, e, b, k, before)
    decreases k
  {
    if k > 0 {
      TakesSamples(c, line, tr, e, b, k - 1, before);
      TakesSample(c, line, tr, e, b, k - 1, before);
    }
  }

  /** The tick after which the receiver can see the next start bit. */
  function Done(c: nat, e: nat): nat { e + c / 2 + 10 * c + 1 }

  /**
   * One frame, with its start bit first seen on tick `u`, at the edge or later:
   * exactly the framed byte is written out, on one known tick.
   */
  lemma ReceiveFrame(c: nat, line: Line, tr: nat -> Rx, u: nat, e: nat, b: Byte)
    requires RxRuns(c, line, tr) && !tr(u).receiving && 0 < e <= u < e + c + c / 2
    requires line(e - 1) && Holds(line, e, u + 1, false)
    requires forall j | 0 <= j < 9 :: line(SampleAt(c, e, j)) == Samples(b)[j]
    ensures !tr(Done(c, e)).receiving && Received(tr, Done(c, e) - 1) == Received(tr, u)
    ensures Received(tr, Done(c, e)) == Received(tr, u) + [b]
  {
    Start(c, line, tr, u, e, b);
    TakesSamples(c, line, tr, e, b, 9, Received(tr, u));
    BitAtIs(c, e + c / 2, 10);
    Completing(c, line, tr, Done(c, e) - 1, b);
  }

  lemma Completing(c: nat, line: Line, tr: nat -> Rx, t: nat, b: Byte)
    requires RxRuns(c, line, tr) && Waits(tr(t), 0, Ones(9), Gathered(Samples(b)[..9]))
    ensures !tr(t + 1).receiving && Received(tr, t + 1) == Received(tr, t) + [b]
  {
    OnesComplete(9);
    assert RxSteps(c, line, tr, t);
    assert Samples(b)[..9] == Samples(b);
    assert Gathered(Samples(b))[23..31] == b;
  }

  /** The sender's bit time is close enough to the receiver's. */
  predicate InTolerance(c: nat, ct: nat) {
    Tolerates(c, ct) && 10 * c + c / 2 + 1 < 11 * ct
  }

  lemma FrameIsSampled(c: nat, ct: nat, line: Line, e: nat, b: Byte)
    requires Tolerates(c, ct) && Framed(ct, line, e, b)
    ensures forall j | 0 <= j < 9 :: line(SampleAt(c, e, j)) == Samples(b)[j]
  {
    forall j | 0 <= j < 9 ensures line(SampleAt(c, e, j)) == Samples(b)[j] {
      SamplesTheByte(c, ct, line, e, b, j);
    }
  }

  /** How long after a byte is sent it has been written out. */
  function Delay(c: nat, lag: nat): nat { lag + c / 2 + 10 * c }

  /** How long into a start bit the receiver can still be finishing the frame before. */
  function Late(c: nat, ct: nat): int { 10 * c + c / 2 + 1 - 10 * ct }

  /** No frame is under way at `a`; tick `u` is at or before the edge of one sent at `a`, or late for it. */
  ghost predicate Placed(c: nat, ct: nat, lag: nat, line: Line, sent: Feed, a: nat, u: nat) {
    && Gap(ct, sent, a) && line(a + lag - 1)
    && Quiet(sent, u - Delay(c, lag), a) && u - Delay(c, lag) <= a
    && if u <= a + lag then Holds(line, u, a + lag, true) else sent(a).Send? && u <= a + lag + Late(c, ct)
  }

  /** The receiver at tick `u` has caught up with the sender at tick `a`. */
  ghost predicate Level(c: nat, ct: nat, lag: nat, line: Line, sent: Feed, tr: nat -> Rx, a: nat, u: nat) {
    Placed(c, ct, lag, line, sent, a, u) && !tr(u).receiving && Received(tr, u) == SentBefore(sent, a)
  }

  /** Between the ticks `u` and `u'` the receiver writes out what is sent, one delay later. */
  ghost predicate OnTime(c: nat, lag: nat, sent: Feed, tr: nat -> Rx, u: nat, u': nat) {
    forall t: nat | u <= t < u' :: Received(tr, t) == SentBefore(sent, t - Delay(c, lag))
  }

  lemma PlacedAfterGap(c: nat, ct: nat, lag: nat, line: Line, sent: Feed, a: nat, u: nat)
    requires 0 < ct && sent(a) == Nothing && CarriesAt(ct, lag, line, sent, a)
    requires Placed(c, ct, lag, line, sent, a, u)
    ensures Placed(c, ct, lag, line, sent, a + 1, u + 1) && line(u)
  {}

  lemma LevelAfterGap(c: nat, ct: nat, lag: nat, line: Line, sent: Feed, tr: nat -> Rx, a: nat, u: nat)
    requires RxRuns(c, line, tr) && 0 < ct && sent(a) == Nothing && CarriesAt(ct, lag, line, sent, a)
    requires Level(c, ct, lag, line, sent, tr, a, u)
    ensures Level(c, ct, lag, line, sent, tr, a + 1, u + 1)
    ensures OnTime(c, lag, sent, tr, u, u + 1)
  {
    PlacedAfterGap(c, ct, lag, line, sent, a, u);
    StaysIdle(c, line, tr, u, u + 1);
    assert SentBefore(sent, a + 1) == SentBefore(sent, a);
    assert OnTime(c, lag, sent, tr, u, u + 1) by {
      QuietSends(sent, u - Delay(c, lag), a);
    }
  }

  /** Until the byte of a frame is written out, nothing is. */
  lemma WhileReceiving(c: nat, lag: nat, sent: Feed, tr: nat -> Rx, a: nat, u: nat)
    requires Quiet(sent, u - Delay(c, lag), a) && u - Delay(c, lag) <= a
    requires Received(tr, Done(c, a + lag) - 1) == Received(tr, u) == SentBefore(sent, a)
    ensures OnTime(c, lag, sent, tr, u, Done(c, a + lag))
  {
    forall t: nat | u <= t < Done(c, a + lag) ensures Received(tr, t) == SentBefore(sent, t - Delay(c, lag)) {
      ReceivedGrows(tr, u, t);
      ReceivedGrows(tr, t, Done(c, a + lag) - 1);
      QuietSends(sent, t - Delay(c, lag), a);
    }
  }

  /** A frame met at a level point is written out, whether its start bit is met on time or late. */
  lemma FrameReceived(c: nat, ct: nat, line: Line, tr: nat -> Rx, u: nat, e: nat, b: Byte)
    requires RxRuns(c, line, tr) && InTolerance(c, ct) && Framed(ct, line, e, b)
    requires 0 < e && line(e - 1) && !tr(u).receiving
    requires if u <= e then Holds(line, u, e, true) else u <= e + Late(c, ct)
    ensures !tr(Done(c, e)).receiving && Received(tr, Done(c, e) - 1) == Received(tr, u)
    ensures Received(tr, Done(c, e)) == Received(tr, u) + [b]
  {
    FrameIsSampled(c, ct, line, e, b);
    if u < e {
      StaysIdle(c, line, tr, u, e);
      ReceiveFrame(c, line, tr, e, e, b);
    } else {
      ReceiveFrame(c, line, tr, u, e, b);
    }
  }

  /** `a'` is where to go on after the frame sent at `a`: its end, the end of reception, or a start bit between them. */
  ghost predicate NextStart(c: nat, ct: nat, lag: nat, line: Line, sent: Feed, a: nat, a': nat) {
    && Quiet(sent, a + 1, a') && line(a' + lag - 1)
    && (a' == a + 10 * ct || a' + lag == Done(c, a + lag) || (a' + lag < Done(c, a + lag) && sent(a').Send?))
    && (a' == a + 10 * ct && a' + lag < Done(c, a + lag) ==> sent(a').Send?)
  }

  lemma NextLevel(c: nat, ct: nat, lag: nat, line: Line, sent: Feed, a: nat) returns (a': nat)
    requires Carries(ct, lag, line, sent) && InTolerance(c, ct) && sent(a).Send?
    ensures a + 10 * ct <= a' && NextStart(c, ct, lag, line, sent, a, a')
  {
    assert CarriesAt(ct, lag, line, sent, a);
    a' := a + 10 * ct;
    while a' + lag < Done(c, a + lag) && sent(a') == Nothing
      invariant a + 10 * ct <= a' && Quiet(sent, a + 1, a') && line(a' + lag - 1)
      invariant a + 10 * ct < a' ==> a' + lag <= Done(c, a + lag)
    {
      assert CarriesAt(ct, lag, line, sent, a') && Gap(ct, sent, a');
      a' := a' + 1;
    }
  }

  lemma PlacedAfterFrame(c: nat, ct: nat, lag: nat, line: Line, sent: Feed, a: nat, a': nat)
    requires InTolerance(c, ct) && 0 < lag && sent(a).Send? && CarriesAt(ct, lag, line, sent, a)
    requires a + 10 * ct <= a' && NextStart(c, ct, lag, line, sent, a, a')
    ensures Placed(c, ct, lag, line, sent, a', Done(c, a + lag))
  {}

  lemma FrameDelivered(c: nat, ct: nat, lag: nat, line: Line, sent: Feed, tr: nat -> Rx, a: nat, u: nat, a': nat, b: Byte)
    requires RxRuns(c, line, tr) && InTolerance(c, ct) && 0 < lag
    requires sent(a) == Send(b) && Framed(ct, line, a + lag, b) && Quiet(sent, a + 1, a') && a < a'
    requires Level(c, ct, lag, line, sent, tr, a, u)
    ensures !tr(Done(c, a + lag)).receiving && Received(tr, Done(c, a + lag)) == SentBefore(sent, a')
    ensures Received(tr, Done(c, a + lag) - 1) == Received(tr, u)
  {
    OneSent(sent, a, b, a');
    FrameReceived(c, ct, line, tr, u, a + lag, b);
  }

  lemma LevelAfterFrame(c: nat, ct: nat, lag: nat, line: Line, sent: Feed, tr: nat -> Rx, a: nat, u: nat, a': nat)
    requires RxRuns(c, line, tr) && InTolerance(c, ct) && 0 < lag
    requires sent(a).Send? && CarriesAt(ct, lag, line, sent, a)
    requires Level(c, ct, lag, line, sent, tr, a, u)
    requires a + 10 * ct <= a' && NextStart(c, ct, lag, line, sent, a, a')
    ensures Level(c, ct, lag, line, sent, tr, a', Done(c, a + lag))
    ensures OnTime(c, lag, sent, tr, u, Done(c, a + lag))
  {
    FrameDelivered(c, ct, lag, line, sent, tr, a, u, a', sent(a).byte);
    PlacedAfterFrame(c, ct, lag, line, sent, a, a');
    WhileReceiving(c, lag, sent, tr, a, u);
  }

  /** One tick of silence, or one whole frame, brings both ends to their next level point. */
  lemma Advance(c: nat, ct: nat, lag: nat, line: Line, sent: Feed, tr: nat -> Rx, a: nat, u: nat)
    returns (a': nat, u': nat)
    requires RxRuns(c, line, tr) && Carries(ct, lag, line, sent) && InTolerance(c, ct) && 0 < lag
    requires Level(c, ct, lag, line, sent, tr, a, u)
    ensures Level(c, ct, lag, line, sent, tr, a', u') && u < u' && OnTime(c, lag, sent, tr, u, u')
  {
    assert CarriesAt(ct, lag, line, sent, a);
    if sent(a) == Nothing {
      LevelAfterGap(c, ct, lag, line, sent, tr, a, u);
      a', u' := a + 1, u + 1;
    } else {
      a' := NextLevel(c, ct, lag, line, sent, a);
      LevelAfterFrame(c, ct, lag, line, sent, tr, a, u, a');
      u' := Done(c, a + lag);
    }
  }

  lemma {:induction false} KeepsUp(c: nat, ct: nat, lag: nat, line: Line, sent: Feed, tr: nat -> Rx,
                                   a: nat, u: nat, t: nat)
    requires RxRuns(c, line, tr) && Carries(ct, lag, line, sent) && InTolerance(c, ct) && 0 < lag
    requires Level(c, ct, lag, line, sent, tr, a, u) && u <= t
    ensures Received(tr, t) == SentBefore(sent, t - Delay(c, lag))
    decreases t - u
  {
    var a', u' := Advance(c, ct, lag, line, sent, tr, a, u);
    if u' <= t {
      KeepsUp(c, ct, lag, line, sent, tr, a', u', t);
    }
  }

  /**
   * Whatever is sent, even exactly back to back, so that the receiver is still
   * busy when the next start bit begins, is written out exactly once and in order,
   * each byte one fixed delay after it was sent.
   */
  lemma Receives(c: nat, ct: nat, lag: nat, line: Line, sent: Feed, tr: nat -> Rx, t: nat)
    requires RxRuns(c, line, tr) && Carries(ct, lag, line, sent) && InTolerance(c, ct) && 0 < lag
    ensures Received(tr, t) == SentBefore(sent, t - Delay(c, lag))
  {
    KeepsUp(c, ct, lag, line, sent, tr, 0, 0, t);
  }
}
