/**
 * rxuartlite: the receiver.  A falling edge starts it; half a bit time later it
 * begins to count bit times, sampling each data bit once, and hands the byte on
 * in the middle of the stop bit.
 */
module RxUart {
  import opened SerialLine

  const STOP: nat := 8
  const WAIT: nat := 9
  const IDLE: nat := 15

  /** Clocks per bit, and the largest value the timers hold. */
  datatype Params = Params(baud: nat, top: nat) {
    predicate Ok() { 4 <= baud <= top }

    function Half(): nat { baud / 2 }
  }

  datatype State = State(
    q: bool, qq: bool, ck: bool, chg: nat, half: bool,
    state: nat, baud: nat, zero: bool, data: Byte, wr: bool, out: Byte)

  /** `data` has no initial value. */
  predicate Initial(p: Params, s: State) {
    && s.q && s.qq && s.ck && s.chg == p.top && !s.half
    && s.state == IDLE && s.baud == 0 && s.zero && !s.wr
  }

  /** The middle of a start bit has been reached. */
  predicate Starts(s: State) { s.state == IDLE && !s.ck && s.half }

  function Next(p: Params, s: State, rx: bool): State
    requires p.Ok()
  {
    State(
      rx, s.q, s.qq,
      if s.qq != s.ck then 0 else if s.chg != p.top then s.chg + 1 else s.chg,
      !s.ck && s.chg >= p.Half() - 2,
      if s.state == IDLE then (if Starts(s) then 0 else IDLE)
      else if s.state >= WAIT && s.ck then IDLE
      else if s.zero && s.state <= STOP then s.state + 1
      else s.state,
      if Starts(s) then p.baud - 1
      else if s.state == WAIT then 0
      else if s.zero && s.state < STOP then p.baud - 1
      else if !s.zero then (if s.baud == 0 then p.top else s.baud - 1)
      else s.baud,
      if Starts(s) then false
      else if s.state == WAIT then true
      else if s.zero && s.state < STOP then false
      else s.zero || s.baud == 1,
      if s.zero && s.state != STOP then s.data[1..] + [s.qq] else s.data,
      s.zero && s.state == STOP && s.ck,
      if s.zero && s.state == STOP && s.ck then s.data else s.out)
  }

  /** `tr` holds the registers on every clock of a run that watches `line`. */
  ghost predicate Runs(p: Params, line: Line, tr: nat -> State) {
    && p.Ok() && Initial(p, tr(0)) && HighBefore(line)
    && forall t: nat :: Steps(p, line, tr, t)
  }

  predicate Steps(p: Params, line: Line, tr: nat -> State, t: nat)
    requires p.Ok()
  {
    tr(t + 1) == Next(p, tr(t), line(t))
  }

  /** The registers at clock `t`, from the registers `s` at clock 0. */
  function At(p: Params, s: State, line: Line, t: nat): State
    requires p.Ok()
  {
    if t == 0 then s else Next(p, At(p, s, line, t - 1), line(t - 1))
  }

  lemma AtRuns(p: Params, s: State, line: Line, tr: nat -> State)
    requires p.Ok() && Initial(p, s) && HighBefore(line) && forall t: nat :: tr(t) == At(p, s, line, t)
    ensures Runs(p, line, tr)
  {
    forall t: nat ensures Steps(p, line, tr, t) {
      assert tr(t + 1) == At(p, s, line, t + 1) && tr(t) == At(p, s, line, t);
    }
  }

  /** The bytes handed on before clock `t`. */
  function Received(tr: nat -> State, t: nat): seq<Byte> {
    if t == 0 then []
    else Received(tr, t - 1) + if tr(t - 1).wr then [tr(t - 1).out] else []
  }

  lemma {:induction false} ReceivedGrows(tr: nat -> State, t: nat, u: nat)
    requires t <= u
    ensures Received(tr, t) <= Received(tr, u)
    decreases u - t
  {
    if t < u {
      ReceivedGrows(tr, t, u - 1);
    }
  }

  /** The synchroniser delays the line by up to three clocks. */
  lemma {:induction false} Sync(p: Params, line: Line, tr: nat -> State, t: nat)
    requires Runs(p, line, tr)
    ensures tr(t).q == line(t - 1) && tr(t).qq == line(t - 2) && tr(t).ck == line(t - 3)
  {
    if t > 0 {
      Sync(p, line, tr, t - 1);
      assert Steps(p, line, tr, t - 1);
    }
  }

  predicate Idle(r: State) { r.state == IDLE && !r.wr }

  /** Nothing is handed on while idle, and an idle receiver on a high line stays idle. */
  lemma {:induction false} StaysIdle(p: Params, line: Line, tr: nat -> State, u: nat, t: nat)
    requires Runs(p, line, tr)
    requires u <= t && Idle(tr(u)) && Holds(line, u - 3, t - 3, true)
    ensures Idle(tr(t)) && Received(tr, t) == Received(tr, u)
    decreases t
  {
    if u < t {
      StaysIdle(p, line, tr, u, t - 1);
      Sync(p, line, tr, t - 1);
      assert Steps(p, line, tr, t - 1);
    }
  }

  /** From the edge on, the change counter counts and the receiver is still idle. */
  lemma {:induction false} CountsFromEdge(p: Params, line: Line, tr: nat -> State, e: nat, k: nat)
    requires Runs(p, line, tr)
    requires k <= p.Half() - 2 && line(e - 1) && Holds(line, e, e + p.Half(), false)
    requires Idle(tr(e + 3))
    ensures tr(e + 3 + k).chg == k && !tr(e + 3 + k).half && Idle(tr(e + 3 + k))
    ensures Received(tr, e + 3 + k) == Received(tr, e + 3)
    decreases k
  {
    if k == 0 {
      Sync(p, line, tr, e + 2);
      assert Steps(p, line, tr, e + 2);
    } else {
      CountsFromEdge(p, line, tr, e, k - 1);
      Sync(p, line, tr, e + 2 + k);
      assert Steps(p, line, tr, e + 2 + k);
    }
  }

  /** Bit time `k` is beginning. */
  predicate Loaded(p: Params, r: State, k: nat, data: Byte) {
    r.state == k && r.baud == p.baud - 1 && !r.zero && !r.wr && r.data == data
  }

  /** The two clocks from the counter reaching half a bit time to the timer being loaded. */
  lemma HalfBit(p: Params, line: Line, tr: nat -> State, t: nat)
    requires Runs(p, line, tr)
    requires !line(t - 3) && !line(t - 2)
    requires tr(t).chg == p.Half() - 2 && !tr(t).half && Idle(tr(t))
    ensures Loaded(p, tr(t + 2), 0, tr(t + 2).data) && Received(tr, t + 2) == Received(tr, t)
  {
    Sync(p, line, tr, t);
    Sync(p, line, tr, t + 1);
    assert Steps(p, line, tr, t) && Steps(p, line, tr, t + 1);
    assert Starts(tr(t + 1));
  }

  /** The timer runs down; nothing else moves until it has. */
  lemma {:induction false} CountsDown(p: Params, line: Line, tr: nat -> State, t: nat, k: nat, data: Byte, j: nat)
    requires Runs(p, line, tr)
    requires k <= STOP && j < p.baud && Loaded(p, tr(t), k, data)
    ensures var r := tr(t + j);
            r.state == k && r.baud == p.baud - 1 - j && r.zero == (r.baud == 0) && !r.wr && r.data == data
    ensures Received(tr, t + j) == Received(tr, t)
    decreases j
  {
    if j > 0 {
      CountsDown(p, line, tr, t, k, data, j - 1);
      assert Steps(p, line, tr, t + j - 1);
    }
  }

  /** A data bit time samples the line once, two clocks before its end. */
  lemma DataBit(p: Params, line: Line, tr: nat -> State, t: nat, k: nat, data: Byte)
    requires Runs(p, line, tr) && k < STOP && Loaded(p, tr(t), k, data)
    ensures Loaded(p, tr(t + p.baud), k + 1, data[1..] + [line(t + p.baud - 3)])
    ensures Received(tr, t + p.baud) == Received(tr, t)
  {
    CountsDown(p, line, tr, t, k, data, p.baud - 1);
    Sync(p, line, tr, t + p.baud - 1);
    assert Steps(p, line, tr, t + p.baud - 1);
  }

  /** The stop bit time ends with the byte handed on, and the receiver is idle on the next clock. */
  lemma StopBit(p: Params, line: Line, tr: nat -> State, t: nat, data: Byte)
    requires Runs(p, line, tr) && Loaded(p, tr(t), STOP, data)
    requires line(t + p.baud - 4) && line(t + p.baud - 3)
    ensures Idle(tr(t + p.baud + 1)) && Received(tr, t + p.baud) == Received(tr, t)
    ensures Received(tr, t + p.baud + 1) == Received(tr, t) + [data]
  {
    var end := t + p.baud - 1;
    CountsDown(p, line, tr, t, STOP, data, p.baud - 1);
    Sync(p, line, tr, end);
    Sync(p, line, tr, end + 1);
    assert Steps(p, line, tr, end) && Steps(p, line, tr, end + 1);
    assert tr(end + 1).wr && tr(end + 1).out == data;
  }

  /** Without a stop bit nothing is handed on, and the receiver waits. */
  lemma NoStopBit(p: Params, line: Line, tr: nat -> State, t: nat, data: Byte)
    requires Runs(p, line, tr) && Loaded(p, tr(t), STOP, data) && !line(t + p.baud - 4)
    ensures tr(t + p.baud).state == WAIT && !tr(t + p.baud).wr && Received(tr, t + p.baud) == Received(tr, t)
  {
    var end := t + p.baud - 1;
    CountsDown(p, line, tr, t, STOP, data, p.baud - 1);
    Sync(p, line, tr, end);
    assert Steps(p, line, tr, end);
  }

  /**
   * A receiver that waits hands on nothing and looks for no start bit for as long
   * as the line stays low, and is ready again once it has been high.
   */
  lemma {:induction false} WaitsForHigh(p: Params, line: Line, tr: nat -> State, t: nat, n: nat)
    requires Runs(p, line, tr) && tr(t).state == WAIT && !tr(t).wr && Holds(line, t - 3, t + n - 3, false)
    ensures tr(t + n).state == WAIT && !tr(t + n).wr && Received(tr, t + n) == Received(tr, t)
    ensures line(t + n - 3) ==> tr(t + n + 1).state == IDLE && !tr(t + n + 1).wr
    decreases n
  {
    if n > 0 {
      WaitsForHigh(p, line, tr, t, n - 1);
      Sync(p, line, tr, t + n - 1);
      assert Steps(p, line, tr, t + n - 1);
    }
    Sync(p, line, tr, t + n);
    assert Steps(p, line, tr, t + n);
  }

  /** A data register with `k` bits of `b` shifted in from the top. */
  function ShiftedIn(any: Byte, b: Byte, k: nat): Byte
    requires k <= 8
  {
    any[k..] + b[..k]
  }

  lemma ShiftIn(any: Byte, b: Byte, k: nat)
    requires k < 8
    ensures ShiftedIn(any, b, k)[1..] + [b[k]] == ShiftedIn(any, b, k + 1)
  {}

  lemma ShiftEnds(any: Byte, b: Byte)
    ensures ShiftedIn(any, b, 0) == any && ShiftedIn(any, b, 8) == b
  {}

  /** What this receiver needs of a frame with its edge at `e`. */
  ghost predicate Sampled(p: Params, line: Line, e: nat, b: Byte) {
    && Holds(line, e, e + p.Half(), false)
    && (forall k | 0 <= k < 8 :: line(SampleAt(p.baud, e, k)) == b[k])
    && line(SampleAt(p.baud, e, 8) - 1) && line(SampleAt(p.baud, e, 8))
  }

  /** The clock on which the bit time of bit `k` begins. */
  function BitStart(p: Params, e: nat, k: nat): nat { BitAt(p.baud, e + p.Half() + 3, k) }

  lemma BitEndsAfterSample(p: Params, e: nat, k: nat)
    ensures SampleAt(p.baud, e, k) == BitStart(p, e, k) + p.baud - 3
    ensures BitStart(p, e, k + 1) == BitStart(p, e, k) + p.baud
  {
    BitAtIs(p.baud, e + p.Half() + 3, k);
    BitAtIs(p.baud, e + p.Half(), k + 1);
  }

  /** At the beginning of bit time `k` the data register has the first `k` data bits at its top. */
  predicate HasBits(p: Params, tr: nat -> State, e: nat, b: Byte, any: Byte, k: nat)
    requires k <= 8
  {
    Loaded(p, tr(BitStart(p, e, k)), k, ShiftedIn(any, b, k))
  }

  lemma NextBit(p: Params, line: Line, tr: nat -> State, e: nat, b: Byte, any: Byte, k: nat)
    requires Runs(p, line, tr) && k < 8 && line(SampleAt(p.baud, e, k)) == b[k]
    requires HasBits(p, tr, e, b, any, k)
    ensures HasBits(p, tr, e, b, any, k + 1)
    ensures Received(tr, BitStart(p, e, k + 1)) == Received(tr, BitStart(p, e, k))
  {
    ShiftIn(any, b, k);
    BitEndsAfterSample(p, e, k);
    DataBit(p, line, tr, BitStart(p, e, k), k, ShiftedIn(any, b, k));
  }

  lemma {:induction false} DataBits(p: Params, line: Line, tr: nat -> State, e: nat, b: Byte, any: Byte, k: nat)
    requires Runs(p, line, tr) && Sampled(p, line, e, b)
    requires k <= 8 && HasBits(p, tr, e, b, any, 0)
    ensures HasBits(p, tr, e, b, any, k)
    ensures Received(tr, BitStart(p, e, k)) == Received(tr, BitStart(p, e, 0))
  {
    if k > 0 {
      DataBits(p, line, tr, e, b, any, k - 1);
      NextBit(p, line, tr, e, b, any, k - 1);
    }
  }

  /** An edge after a high line starts the first bit time half a bit time later. */
  lemma StartBit(p: Params, line: Line, tr: nat -> State, u: nat, e: nat)
    requires Runs(p, line, tr) && u <= e + 3 && Idle(tr(u))
    requires Holds(line, u - 4, e, true) && line(e - 1) && Holds(line, e, e + p.Half(), false)
    ensures var t := BitStart(p, e, 0); Loaded(p, tr(t), 0, tr(t).data) && Received(tr, t) == Received(tr, u)
  {
    StaysIdle(p, line, tr, u, e + 3);
    CountsFromEdge(p, line, tr, e, p.Half() - 2);
    HalfBit(p, line, tr, e + p.Half() + 1);
  }

  /** The clock on which the receiver is idle again after a frame. */
  function Done(p: Params, e: nat): nat { e + p.Half() + 9 * p.baud + 4 }

  lemma DoneAfterStop(p: Params, e: nat)
    ensures Done(p, e) == BitStart(p, e, 8) + p.baud + 1
  {
    BitAtIs(p.baud, e + p.Half() + 3, 8);
  }

  /** With all `n` data bits in, the stop bit hands the byte on. */
  lemma EndsFrame(p: Params, line: Line, tr: nat -> State, e: nat, b: Byte, any: Byte, n: nat)
    requires Runs(p, line, tr) && n == 8 && HasBits(p, tr, e, b, any, n)
    requires line(SampleAt(p.baud, e, n) - 1) && line(SampleAt(p.baud, e, n))
    ensures Idle(tr(Done(p, e))) && Received(tr, Done(p, e) - 1) == Received(tr, BitStart(p, e, n))
    ensures Received(tr, Done(p, e)) == Received(tr, BitStart(p, e, n)) + [b]
  {
    ShiftEnds(any, b);
    BitEndsAfterSample(p, e, n);
    DoneAfterStop(p, e);
    StopBit(p, line, tr, BitStart(p, e, n), b);
  }

  /**
   * One frame.  A receiver idle when the edge comes, after a high line, hands on
   * exactly the framed byte, on one known clock, and is idle again at once.
   */
  lemma ReceiveFrame(p: Params, line: Line, tr: nat -> State, u: nat, e: nat, b: Byte)
    requires Runs(p, line, tr) && u <= e + 3 && Idle(tr(u))
    requires Holds(line, u - 4, e, true) && line(e - 1) && Sampled(p, line, e, b)
    ensures Idle(tr(Done(p, e))) && Received(tr, Done(p, e) - 1) == Received(tr, u)
    ensures Received(tr, Done(p, e)) == Received(tr, u) + [b]
  {
    StartBit(p, line, tr, u, e);
    RestOfFrame(p, line, tr, e, b, 8);
  }

  lemma RestOfFrame(p: Params, line: Line, tr: nat -> State, e: nat, b: Byte, n: nat)
    requires Runs(p, line, tr) && Sampled(p, line, e, b) && n == 8
    requires var t := BitStart(p, e, 0); Loaded(p, tr(t), 0, tr(t).data)
    ensures Idle(tr(Done(p, e))) && Received(tr, Done(p, e) - 1) == Received(tr, BitStart(p, e, 0))
    ensures Received(tr, Done(p, e)) == Received(tr, BitStart(p, e, 0)) + [b]
  {
    var any := tr(BitStart(p, e, 0)).data;
    ShiftEnds(any, b);
    DataBits(p, line, tr, e, b, any, n);
    EndsFrame(p, line, tr, e, b, any, n);
  }

  /** The sender's bit time is close enough to the receiver's. */
  predicate InTolerance(p: Params, ct: nat) {
    9 * ct <= 9 * p.baud + p.Half() - 1 && 9 * p.baud + p.Half() < 10 * ct
  }

  lemma FrameIsSampled(p: Params, ct: nat, line: Line, e: nat, b: Byte)
    requires p.Ok() && InTolerance(p, ct) && Framed(ct, line, e, b)
    ensures Sampled(p, line, e, b)
  {
    forall k | 0 <= k <= 8
      ensures line(SampleAt(p.baud, e, k)) == if k < 8 then b[k] else true
    {
      SamplesTheByte(p.baud, ct, line, e, b, k);
    }
    BitAtIs(p.baud, e + p.Half(), 9);
  }

  /** How long after a byte is sent it has been handed on. */
  function Delay(p: Params, lag: nat): nat { lag + p.Half() + 9 * p.baud + 3 }

  /** No frame is under way at `a`, and clock `u` is soon enough to see the edge of one sent at `a`. */
  ghost predicate Placed(p: Params, ct: nat, lag: nat, line: Line, sent: Feed, a: nat, u: nat) {
    && Gap(ct, sent, a) && u <= a + lag + 3
    && Holds(line, u - 4, a + lag, true) && line(a + lag - 1)
    && Quiet(sent, u - Delay(p, lag), a) && u - Delay(p, lag) <= a
  }

  /** The receiver at clock `u` has caught up with the sender at clock `a`, between frames. */
  ghost predicate Level(p: Params, ct: nat, lag: nat, line: Line, sent: Feed, tr: nat -> State, a: nat, u: nat) {
    Placed(p, ct, lag, line, sent, a, u) && Idle(tr(u)) && Received(tr, u) == SentBefore(sent, a)
  }

  /** Between the clocks `u` and `u'` the receiver hands on what is sent, one delay later. */
  ghost predicate OnTime(p: Params, lag: nat, sent: Feed, tr: nat -> State, u: nat, u': nat) {
    forall t: nat | u <= t < u' :: Received(tr, t) == SentBefore(sent, t - Delay(p, lag))
  }

  lemma PlacedAfterGap(p: Params, ct: nat, lag: nat, line: Line, sent: Feed, a: nat, u: nat)
    requires 0 < ct && sent(a) == Nothing && CarriesAt(ct, lag, line, sent, a)
    requires Placed(p, ct, lag, line, sent, a, u)
    ensures Placed(p, ct, lag, line, sent, a + 1, u + 1) && line(a + lag)
  {}

  lemma LevelAfterGap(p: Params, ct: nat, lag: nat, line: Line, sent: Feed, tr: nat -> State, a: nat, u: nat)
    requires Runs(p, line, tr) && 0 < ct && sent(a) == Nothing && CarriesAt(ct, lag, line, sent, a)
    requires Level(p, ct, lag, line, sent, tr, a, u)
    ensures Level(p, ct, lag, line, sent, tr, a + 1, u + 1)
    ensures OnTime(p, lag, sent, tr, u, u + 1)
  {
    hide Runs, Gap, Framed, CarriesAt;
    PlacedAfterGap(p, ct, lag, line, sent, a, u);
    StaysIdle(p, line, tr, u, u + 1);
    assert SentBefore(sent, a + 1) == SentBefore(sent, a);
    assert OnTime(p, lag, sent, tr, u, u + 1) by {
      QuietSends(sent, u - Delay(p, lag), a);
    }
  }

  lemma FrameReceived(p: Params, ct: nat, line: Line, tr: nat -> State, u: nat, e: nat, b: Byte)
    requires Runs(p, line, tr) && InTolerance(p, ct) && Framed(ct, line, e, b)
    requires u <= e + 3 && Idle(tr(u)) && Holds(line, u - 4, e, true) && line(e - 1)
    ensures Idle(tr(Done(p, e))) && Received(tr, Done(p, e) - 1) == Received(tr, u)
    ensures Received(tr, Done(p, e)) == Received(tr, u) + [b]
  {
    FrameIsSampled(p, ct, line, e, b);
    ReceiveFrame(p, line, tr, u, e, b);
  }

  /** Until the byte of a frame is handed on, nothing is. */
  lemma WhileReceiving(p: Params, lag: nat, sent: Feed, tr: nat -> State, a: nat, u: nat)
    requires Quiet(sent, u - Delay(p, lag), a) && u - Delay(p, lag) <= a
    requires Received(tr, Done(p, a + lag) - 1) == Received(tr, u) == SentBefore(sent, a)
    ensures OnTime(p, lag, sent, tr, u, Done(p, a + lag))
  {
    forall t: nat | u <= t < Done(p, a + lag) ensures Received(tr, t) == SentBefore(sent, t - Delay(p, lag)) {
      ReceivedGrows(tr, u, t);
      ReceivedGrows(tr, t, Done(p, a + lag) - 1);
      QuietSends(sent, t - Delay(p, lag), a);
    }
  }

  lemma PlacedAfterFrame(p: Params, ct: nat, lag: nat, line: Line, sent: Feed, a: nat)
    requires p.Ok() && InTolerance(p, ct) && sent(a).Send? && CarriesAt(ct, lag, line, sent, a)
    ensures Placed(p, ct, lag, line, sent, a + 10 * ct, Done(p, a + lag))
  {}

  lemma FrameDelivered(p: Params, ct: nat, lag: nat, line: Line, sent: Feed, tr: nat -> State, a: nat, u: nat, b: Byte)
    requires Runs(p, line, tr) && InTolerance(p, ct)
    requires sent(a) == Send(b) && Framed(ct, line, a + lag, b) && Quiet(sent, a + 1, a + 10 * ct)
    requires Level(p, ct, lag, line, sent, tr, a, u)
    ensures Idle(tr(Done(p, a + lag))) && Received(tr, Done(p, a + lag)) == SentBefore(sent, a + 10 * ct)
    ensures Received(tr, Done(p, a + lag) - 1) == Received(tr, u)
  {
    OneSent(sent, a, b, a + 10 * ct);
    FrameReceived(p, ct, line, tr, u, a + lag, b);
  }

  lemma LevelAfterFrame(p: Params, ct: nat, lag: nat, line: Line, sent: Feed, tr: nat -> State, a: nat, u: nat)
    requires Runs(p, line, tr) && InTolerance(p, ct) && sent(a).Send? && CarriesAt(ct, lag, line, sent, a)
    requires Level(p, ct, lag, line, sent, tr, a, u)
    ensures Level(p, ct, lag, line, sent, tr, a + 10 * ct, Done(p, a + lag))
    ensures OnTime(p, lag, sent, tr, u, Done(p, a + lag))
  {
    FrameDelivered(p, ct, lag, line, sent, tr, a, u, sent(a).byte);
    PlacedAfterFrame(p, ct, lag, line, sent, a);
    WhileReceiving(p, lag, sent, tr, a, u);
  }

  /** One clock of silence, or one whole frame, brings both ends to their next level point. */
  lemma Advance(p: Params, ct: nat, lag: nat, line: Line, sent: Feed, tr: nat -> State, a: nat, u: nat)
    returns (a': nat, u': nat)
    requires Runs(p, line, tr) && Carries(ct, lag, line, sent) && InTolerance(p, ct)
    requires Level(p, ct, lag, line, sent, tr, a, u)
    ensures Level(p, ct, lag, line, sent, tr, a', u') && u < u' && OnTime(p, lag, sent, tr, u, u')
  {
    assert CarriesAt(ct, lag, line, sent, a);
    if sent(a) == Nothing {
      LevelAfterGap(p, ct, lag, line, sent, tr, a, u);
      a', u' := a + 1, u + 1;
    } else {
      LevelAfterFrame(p, ct, lag, line, sent, tr, a, u);
      a', u' := a + 10 * ct, Done(p, a + lag);
    }
  }

  /** From a point where both ends are level, the receiver hands on what is sent, one delay later. */
  lemma {:induction false} KeepsUp(p: Params, ct: nat, lag: nat, line: Line, sent: Feed, tr: nat -> State,
                                   a: nat, u: nat, t: nat)
    requires Runs(p, line, tr) && Carries(ct, lag, line, sent) && InTolerance(p, ct)
    requires Level(p, ct, lag, line, sent, tr, a, u) && u <= t
    ensures Received(tr, t) == SentBefore(sent, t - Delay(p, lag))
    decreases t - u
  {
    var a', u' := Advance(p, ct, lag, line, sent, tr, a, u);
    if u' <= t {
      KeepsUp(p, ct, lag, line, sent, tr, a', u', t);
    }
  }

  /**
   * Whatever is sent, back to back or with gaps, is handed on exactly once and in
   * order, each byte one fixed delay after it was accepted, as long as the two
   * bit times agree within the tolerance.
   */
  lemma Receives(p: Params, ct: nat, lag: nat, line: Line, sent: Feed, tr: nat -> State, t: nat)
    requires Runs(p, line, tr) && Carries(ct, lag, line, sent) && InTolerance(p, ct)
    ensures Received(tr, t) == SentBefore(sent, t - Delay(p, lag))
  {
    KeepsUp(p, ct, lag, line, sent, tr, 0, 0, t);
  }

  // Pacing, for any waveform at all.

  /** The clocks since the first bit time began, as the state and the timer tell them. */
  function Elapsed(p: Params, r: State): int { BitAt(p.baud, 0, r.state) + p.baud - 1 - r.baud }

  /** While a byte is coming in the timer runs from a bit time less one down to zero. */
  predicate Timed(p: Params, r: State) {
    && (r.state <= STOP ==> r.zero == (r.baud == 0) && r.baud < p.baud)
    && (r.state <= WAIT || r.state == IDLE)
    && (r.wr ==> r.state == WAIT)
    && (r.state == IDLE || r.state == WAIT ==> r.baud == 0 && r.zero)
  }

  lemma TimedStep(p: Params, r: State, rx: bool)
    requires p.Ok() && Timed(p, r)
    ensures var n := Next(p, r, rx);
            && Timed(p, n)
            && (n.state <= STOP ==> if r.state <= STOP then Elapsed(p, n) == Elapsed(p, r) + 1 else Elapsed(p, n) == 0)
            && (n.wr ==> r.state == STOP && Elapsed(p, r) == BitAt(p.baud, 0, 9) - 1)
  {
    assert BitAt(p.baud, 0, STOP + 1) == BitAt(p.baud, 0, STOP) + p.baud;
  }

  /** A byte has been coming in on all of the clocks it takes to get this far. */
  ghost predicate ComingSince(p: Params, tr: nat -> State, t: nat) {
    && Timed(p, tr(t))
    && (tr(t).state <= STOP ==> forall x: nat | t - Elapsed(p, tr(t)) <= x <= t :: tr(x).state <= STOP)
  }

  lemma {:induction false} ComingIn(p: Params, line: Line, tr: nat -> State, t: nat)
    requires Runs(p, line, tr)
    ensures ComingSince(p, tr, t)
  {
    if t > 0 {
      ComingIn(p, line, tr, t - 1);
      assert Steps(p, line, tr, t - 1);
      TimedStep(p, tr(t - 1), line(t - 1));
    }
  }

  /** Whatever is on the line, bytes are handed on more than nine bit times apart. */
  lemma BytesApart(p: Params, line: Line, tr: nat -> State, t: nat, u: nat)
    requires Runs(p, line, tr) && t < u && tr(t).wr && tr(u).wr
    ensures u - t > 9 * p.baud
  {
    ComingIn(p, line, tr, t);
    ComingIn(p, line, tr, u - 1);
    TakesNineBits(p, line, tr, u);
  }

  lemma TakesNineBits(p: Params, line: Line, tr: nat -> State, u: nat)
    requires Runs(p, line, tr) && 0 < u && tr(u).wr && Timed(p, tr(u - 1))
    ensures tr(u - 1).state == STOP && Elapsed(p, tr(u - 1)) == 9 * p.baud - 1
  {
    assert Steps(p, line, tr, u - 1);
    TimedStep(p, tr(u - 1), line(u - 1));
    BitAtIs(p.baud, 0, 9);
  }

  class Receiver {
    const p: Params
    var q: bool
    var qq: bool
    var ck: bool
    var chg: nat
    var half: bool
    var state: nat
    var baud: nat
    var zero: bool
    var data: Byte
    var wr: bool
    var out: Byte

    constructor (p: Params)
      requires p.Ok()
      ensures this.p == p && Initial(p, Registers())
    {
      this.p := p;
      q, qq, ck, chg, half := true, true, true, p.top, false;
      state, baud, zero, wr := IDLE, 0, true, false;
    }

    ghost function Registers(): State
      reads this
    {
      State(q, qq, ck, chg, half, state, baud, zero, data, wr, out)
    }

    /** The state and the bit timer, on the next clock. */
    static method NextTimer(p: Params, s: State) returns (state: nat, baud: nat, zero: bool)
      requires p.Ok()
      ensures var n := Next(p, s, false); state == n.state && baud == n.baud && zero == n.zero
    {
      var starts := s.state == IDLE && !s.ck && s.half;
      state, baud, zero := s.state, s.baud, s.zero || s.baud == 1;
      if s.state == IDLE {
        state := if starts then 0 else IDLE;
      } else if s.state >= WAIT && s.ck {
        state := IDLE;
      } else if s.zero && s.state <= STOP {
        state := s.state + 1;
      }
      if starts {
        baud, zero := p.baud - 1, false;
      } else if s.state == WAIT {
        baud, zero := 0, true;
      } else if s.zero && s.state < STOP {
        baud, zero := p.baud - 1, false;
      } else if !s.zero {
        baud := if s.baud == 0 then p.top else s.baud - 1;
      }
    }

    /** The synchroniser, the change counter and the data, on the next clock. */
    static method NextData(p: Params, s: State, rx: bool, state: nat, baud: nat, zero: bool) returns (n: State)
      requires p.Ok()
      ensures n == Next(p, s, rx).(state := state, baud := baud, zero := zero)
    {
      var chg := s.chg;
      if s.qq != s.ck {
        chg := 0;
      } else if s.chg != p.top {
        chg := chg + 1;
      }
      var wr := s.zero && s.state == STOP && s.ck;
      var out := if wr then s.data else s.out;
      var data := if s.zero && s.state != STOP then s.data[1..] + [s.qq] else s.data;
      n := State(rx, s.q, s.qq, chg, !s.ck && s.chg >= p.Half() - 2, state, baud, zero, data, wr, out);
    }

    /** One clock with the line at `rx`. */
    method Step(rx: bool)
      requires p.Ok()
      modifies this
      ensures Registers() == Next(p, old(Registers()), rx)
    {
      var s := State(q, qq, ck, chg, half, state, baud, zero, data, wr, out);
      var state', baud', zero' := NextTimer(p, s);
      var n := NextData(p, s, rx, state', baud', zero');
      q, qq, ck, chg, half := n.q, n.qq, n.ck, n.chg, n.half;
      state, baud, zero, data, wr, out := n.state, n.baud, n.zero, n.data, n.wr, n.out;
    }
  }
}
