/**
 * txuartlite: the transmitter.  It accepts a byte when it is not busy, sends a
 * start bit, eight data bits and a stop bit, and can be idle again exactly ten
 * bit times after it accepted the byte.
 */
module TxUart {
  import opened SerialLine

  const STOP: nat := 8
  const LAST: nat := 9
  const IDLE: nat := 15

  /** Clocks per bit, and the largest value the timer holds. */
  datatype Params = Params(baud: nat, top: nat) {
    predicate Ok() { 3 <= baud <= top }
  }

  datatype State = State(baud: nat, state: nat, shift: Byte, busy: bool, zero: bool, tx: bool)

  const INITIAL := State(0, IDLE, ONES, true, true, true)

  /** A byte is accepted on this clock. */
  predicate Accepts(s: State, i: Offer) { i.Send? && !s.busy }

  function Next(p: Params, s: State, i: Offer): State
    requires p.Ok()
  {
    var take := Accepts(s, i);
    State(
      if s.state == IDLE then (if take then p.baud - 1 else 0)
      else if !s.zero then (if s.baud == 0 then p.top else s.baud - 1)
      else if s.state > STOP then 0
      else if s.state == STOP then p.baud - 2
      else p.baud - 1,
      if !s.zero then s.state
      else if s.state > STOP then (if take then 0 else IDLE)
      else s.state + 1,
      if take then i.byte else if s.zero then s.shift[1..] + [true] else s.shift,
      if !s.zero then true
      else if s.state > STOP then take
      else true,
      if s.state == IDLE then !take
      else if !s.zero then s.baud == 1
      else s.state > STOP || s.baud == 1,
      if take then false else if s.zero then s.shift[0] else s.tx)
  }

  /** `tr` holds the registers on every clock of a run that is offered `offers`. */
  ghost predicate Runs(p: Params, offers: Feed, tr: nat -> State) {
    && p.Ok() && tr(0) == INITIAL
    && forall t: nat :: Steps(p, offers, tr, t)
  }

  predicate Steps(p: Params, offers: Feed, tr: nat -> State, t: nat)
    requires p.Ok()
  {
    tr(t + 1) == Next(p, tr(t), offers(t))
  }

  /** The registers at clock `t`. */
  function At(p: Params, offers: Feed, t: nat): State
    requires p.Ok()
  {
    if t == 0 then INITIAL else Next(p, At(p, offers, t - 1), offers(t - 1))
  }

  lemma AtRuns(p: Params, offers: Feed, tr: nat -> State)
    requires p.Ok() && forall t: nat :: tr(t) == At(p, offers, t)
    ensures Runs(p, offers, tr)
  {
    forall t: nat ensures Steps(p, offers, tr, t) {
      assert tr(t + 1) == At(p, offers, t + 1) && tr(t) == At(p, offers, t);
    }
  }

  /** The byte accepted on clock `t`. */
  function Accepted(offers: Feed, tr: nat -> State, t: int): Offer {
    if t >= 0 && Accepts(tr(t), offers(t)) then offers(t) else Nothing
  }

  /** The line the transmitter drives. */
  function Output(tr: nat -> State, x: int): bool { if x < 0 then true else tr(x).tx }

  /** Idle with the line high, ready to accept unless still busy from reset. */
  predicate Rests(s: State) { s.state == IDLE && s.zero && s.tx && s.shift == ONES }

  lemma RestsOn(p: Params, offers: Feed, tr: nat -> State, t: nat)
    requires Runs(p, offers, tr) && Rests(tr(t)) && Accepted(offers, tr, t) == Nothing
    ensures Rests(tr(t + 1)) && !tr(t + 1).busy
  {
    assert Steps(p, offers, tr, t);
  }

  /** Bit time `k` of a frame is beginning; `rest` bits are yet to come and `len` clocks remain. */
  predicate Loaded(s: State, k: nat, len: nat, level: bool, rest: Byte) {
    s.state == k && s.baud == len - 1 && !s.zero && s.busy && s.tx == level && s.shift == rest
  }

  /** The timer runs down with the line held. */
  lemma {:induction false} CountsDown(p: Params, offers: Feed, tr: nat -> State, t: nat,
                                      k: nat, len: nat, level: bool, rest: Byte, j: nat)
    requires Runs(p, offers, tr)
    requires k <= LAST && 2 <= len <= p.baud && j < len && Loaded(tr(t), k, len, level, rest)
    ensures var r := tr(t + j);
            r.state == k && r.baud == len - 1 - j && r.zero == (r.baud == 0) && r.busy && r.tx == level && r.shift == rest
    decreases j
  {
    if j > 0 {
      CountsDown(p, offers, tr, t, k, len, level, rest, j - 1);
      assert Steps(p, offers, tr, t + j - 1);
    }
  }

  /** A stretch of clocks with the line held and the transmitter busy. */
  ghost predicate Held(tr: nat -> State, t: nat, len: nat, level: bool) {
    forall x: nat | t <= x < t + len :: tr(x).tx == level && tr(x).busy
  }

  lemma HeldWhileCounting(p: Params, offers: Feed, tr: nat -> State, t: nat,
                          k: nat, len: nat, level: bool, rest: Byte)
    requires Runs(p, offers, tr)
    requires k <= LAST && 2 <= len <= p.baud && Loaded(tr(t), k, len, level, rest)
    ensures Held(tr, t, len, level)
  {
    forall x: nat | t <= x < t + len ensures tr(x).tx == level && tr(x).busy {
      CountsDown(p, offers, tr, t, k, len, level, rest, x - t);
    }
  }

  /** A bit time lasts `p.baud` clocks, and the next begins with the next bit on the line. */
  lemma BitTime(p: Params, offers: Feed, tr: nat -> State, t: nat, k: nat, level: bool, rest: Byte)
    requires Runs(p, offers, tr) && k <= STOP && Loaded(tr(t), k, p.baud, level, rest)
    ensures Held(tr, t, p.baud, level)
    ensures Loaded(tr(t + p.baud), k + 1, if k == STOP then p.baud - 1 else p.baud, rest[0], rest[1..] + [true])
  {
    HeldWhileCounting(p, offers, tr, t, k, p.baud, level, rest);
    CountsDown(p, offers, tr, t, k, p.baud, level, rest, p.baud - 1);
    assert Steps(p, offers, tr, t + p.baud - 1);
  }

  /** The stop bit is one clock short, and the transmitter rests from then on. */
  lemma StopTime(p: Params, offers: Feed, tr: nat -> State, t: nat)
    requires Runs(p, offers, tr) && Loaded(tr(t), LAST, p.baud - 1, true, ONES)
    ensures Held(tr, t, p.baud - 1, true)
    ensures Rests(tr(t + p.baud - 1)) && !tr(t + p.baud - 1).busy
  {
    var len := p.baud - 1;
    HeldWhileCounting(p, offers, tr, t, LAST, len, true, ONES);
    CountsDown(p, offers, tr, t, LAST, len, true, ONES, len - 1);
    assert Steps(p, offers, tr, t + len - 1);
  }

  /** The shift register with the first `k` bits gone and ones filled in behind. */
  function Shifted(b: Byte, k: nat): Byte { if k <= 8 then b[k..] + ONES[..k] else ONES }

  /** The level of bit `k` of a frame: the start bit, the data bits, the stop bit. */
  function LevelOf(b: Byte, k: nat): bool {
    if k == 0 then false else if k <= 8 then b[k - 1] else true
  }

  lemma ShiftOut(b: Byte, k: nat)
    requires k <= 8
    ensures Shifted(b, k)[0] == LevelOf(b, k + 1)
    ensures Shifted(b, k)[1..] + [true] == Shifted(b, k + 1)
  {}

  /** The clocks that bit `k` lasts before the transmitter moves on. */
  function Length(p: Params, k: nat): nat
    requires p.Ok()
  {
    if k == LAST then p.baud - 1 else p.baud
  }

  /** Bit `k` of the frame of `b`, accepted at `a`, begins on its clock. */
  predicate AtBit(p: Params, tr: nat -> State, a: nat, b: Byte, k: nat)
    requires p.Ok()
  {
    Loaded(tr(BitAt(p.baud, a + 1, k)), k, Length(p, k), LevelOf(b, k), Shifted(b, k))
  }

  lemma NextBit(p: Params, offers: Feed, tr: nat -> State, a: nat, b: Byte, k: nat)
    requires Runs(p, offers, tr) && k <= STOP && AtBit(p, tr, a, b, k)
    ensures AtBit(p, tr, a, b, k + 1) && Held(tr, BitAt(p.baud, a + 1, k), p.baud, LevelOf(b, k))
  {
    var t := BitAt(p.baud, a + 1, k);
    ShiftOut(b, k);
    BitTime(p, offers, tr, t, k, LevelOf(b, k), Shifted(b, k));
  }

  lemma {:induction false} BitBegins(p: Params, offers: Feed, tr: nat -> State, a: nat, b: Byte, k: nat)
    requires Runs(p, offers, tr) && k <= LAST
    requires Rests(tr(a)) && Accepted(offers, tr, a) == Send(b)
    ensures AtBit(p, tr, a, b, k)
    decreases k
  {
    if k == 0 {
      assert Steps(p, offers, tr, a);
    } else {
      BitBegins(p, offers, tr, a, b, k - 1);
      NextBit(p, offers, tr, a, b, k - 1);
    }
  }

  /** The frame of a byte accepted while at rest is on the line from the next clock, and busy is up. */
  lemma SendsBit(p: Params, offers: Feed, tr: nat -> State, a: nat, b: Byte, k: nat)
    requires Runs(p, offers, tr) && k <= LAST
    requires Rests(tr(a)) && Accepted(offers, tr, a) == Send(b)
    ensures Held(tr, BitAt(p.baud, a + 1, k), Length(p, k), LevelOf(b, k))
    ensures k == LAST ==> Rests(tr(a + 10 * p.baud)) && !tr(a + 10 * p.baud).busy
  {
    BitBegins(p, offers, tr, a, b, k);
    if k < LAST {
      NextBit(p, offers, tr, a, b, k);
    } else {
      BitAtIs(p.baud, a + 1, 9);
      StopTime(p, offers, tr, BitAt(p.baud, a + 1, LAST));
    }
  }

  /** The line as the rest of the world sees it, and the bytes accepted, on every clock. */
  ghost predicate Drives(offers: Feed, tr: nat -> State, line: Line, sent: Feed) {
    && (forall x :: line(x) == Output(tr, x))
    && (forall t :: sent(t) == Accepted(offers, tr, t))
  }

  /** Busy from the clock after a byte is accepted until bit `k` begins. */
  lemma {:induction false} BusyThrough(p: Params, offers: Feed, tr: nat -> State, a: nat, b: Byte, k: nat)
    requires Runs(p, offers, tr) && k <= LAST
    requires Rests(tr(a)) && Accepted(offers, tr, a) == Send(b)
    ensures forall x: nat | a < x < BitAt(p.baud, a + 1, k) :: tr(x).busy
    decreases k
  {
    if k > 0 {
      BusyThrough(p, offers, tr, a, b, k - 1);
      SendsBit(p, offers, tr, a, b, k - 1);
    }
  }

  /** A byte accepted at rest is framed on the line, nothing else is accepted meanwhile, and it ends at rest. */
  lemma SendsFrame(p: Params, offers: Feed, tr: nat -> State, line: Line, sent: Feed, a: nat)
    requires Runs(p, offers, tr) && Drives(offers, tr, line, sent)
    requires Rests(tr(a)) && sent(a).Send?
    ensures Framed(p.baud, line, a + 1, sent(a).byte) && Quiet(sent, a + 1, a + 10 * p.baud)
    ensures Rests(tr(a + 10 * p.baud)) && !tr(a + 10 * p.baud).busy
  {
    var b, c := sent(a).byte, p.baud;
    SendsBit(p, offers, tr, a, b, 0);
    assert BitAt(c, a + 1, 0) == a + 1;
    forall k | 0 <= k < 8 ensures Holds(line, BitAt(c, a + 1, k + 1), BitAt(c, a + 1, k + 1) + c, b[k]) {
      SendsBit(p, offers, tr, a, b, k + 1);
    }
    SendsBit(p, offers, tr, a, b, LAST);
    BusyThrough(p, offers, tr, a, b, LAST);
    BitAtIs(c, a + 1, 9);
  }

  /** The last clock, up to `t`, on which the transmitter rests or the frame under way was accepted. */
  lemma {:induction false} LastRest(p: Params, offers: Feed, tr: nat -> State, line: Line, sent: Feed, t: nat)
    returns (a: nat)
    requires Runs(p, offers, tr) && Drives(offers, tr, line, sent)
    ensures a <= t && Rests(tr(a)) && (a < t ==> sent(a).Send? && t < a + 10 * p.baud)
  {
    if t == 0 {
      a := 0;
    } else {
      a := LastRest(p, offers, tr, line, sent, t - 1);
      if sent(a) == Nothing {
        RestsOn(p, offers, tr, a);
        a := t;
      } else if t == a + 10 * p.baud {
        SendsFrame(p, offers, tr, line, sent, a);
        a := t;
      }
    }
  }

  /**
   * The line carries exactly what was accepted: each byte framed from the next
   * clock on, frames never overlapping, and high the rest of the time.
   */
  lemma Transmits(p: Params, offers: Feed, tr: nat -> State, line: Line, sent: Feed)
    requires Runs(p, offers, tr) && Drives(offers, tr, line, sent)
    ensures Carries(p.baud, 1, line, sent)
  {
    assert line(0);
    forall t: nat ensures CarriesAt(p.baud, 1, line, sent, t) {
      var a := LastRest(p, offers, tr, line, sent, t);
      if sent(t).Send? {
        if a < t {
          SendsFrame(p, offers, tr, line, sent, a);
        }
        SendsFrame(p, offers, tr, line, sent, t);
      } else if a == t {
        RestsOn(p, offers, tr, t);
      }
    }
  }

  /** A byte offered while resting and not busy is accepted, and back-to-back bytes go out every ten bit times. */
  lemma FullRate(p: Params, offers: Feed, tr: nat -> State, line: Line, sent: Feed, a: nat)
    requires Runs(p, offers, tr) && Drives(offers, tr, line, sent)
    requires sent(a).Send? && offers(a + 10 * p.baud).Send?
    ensures sent(a + 10 * p.baud) == offers(a + 10 * p.baud)
  {
    var r := LastRest(p, offers, tr, line, sent, a);
    if r < a {
      SendsFrame(p, offers, tr, line, sent, r);
    }
    SendsFrame(p, offers, tr, line, sent, a);
  }

  class Transmitter {
    const p: Params
    var baud: nat
    var state: nat
    var shift: Byte
    var busy: bool
    var zero: bool
    var tx: bool

    constructor (p: Params)
      requires p.Ok()
      ensures this.p == p && Registers() == INITIAL
    {
      this.p := p;
      baud, state, shift, busy, zero, tx := 0, IDLE, ONES, true, true, true;
    }

    ghost function Registers(): State
      reads this
    {
      State(baud, state, shift, busy, zero, tx)
    }

    /** One clock with a byte offered or not. */
    method Step(i: Offer)
      requires p.Ok()
      modifies this
      ensures Registers() == Next(p, old(Registers()), i)
    {
      var take := i.Send? && !busy;
      var baud', zero' := baud, baud == 1;
      if state == IDLE {
        baud', zero' := 0, true;
        if take {
          baud', zero' := p.baud - 1, false;
        }
      } else if !zero {
        baud' := if baud == 0 then p.top else baud - 1;
      } else if state > STOP {
        baud', zero' := 0, true;
      } else if state == STOP {
        baud' := p.baud - 2;
      } else {
        baud' := p.baud - 1;
      }
      if take {
        tx := false;
      } else if zero {
        tx := shift[0];
      }
      if take {
        shift := i.byte;
      } else if zero {
        shift := shift[1..] + [true];
      }
      if !zero {
        busy := true;
      } else if state > STOP {
        state, busy := if take then 0 else IDLE, take;
      } else {
        state, busy := state + 1, true;
      }
      baud, zero := baud', zero';
    }
  }
}
