/**
 * The response chain comes to an end: whatever the stalls, as the transmitter
 * keeps taking characters, everything held is delivered within a known number of them.
 */
module ChainDrains {
  import opened HexWord
  import opened Sequences
  import HbInts
  import HbIdle
  import HbDeword
  import HbGenhex
  import HbNewline
  import ResponseChain

  // What each stage still has to do, counted in clocks on which the transmitter is free.

  function LineWork(s: HbNewline.State): nat {
    if !s.stb then 0 else if s.crState then 2 else if s.lastCr then 1 else 3
  }

  function WordWork(s: HbDeword.State): nat { if s.stb then 5 * (s.len + 1) else 0 }

  function Work(s: ResponseChain.State): nat {
    (if s.ints.stb then 47 else 0) + (if s.idle.stb then 46 else 0) + WordWork(s.dw)
      + (if s.gx.stb then 4 else 0) + LineWork(s.nl)
  }

  predicate StatesInv(s: ResponseChain.State) {
    HbInts.Inv(s.ints) && HbDeword.Inv(s.dw) && HbNewline.Inv(s.nl)
  }

  /** Nothing new comes in. */
  predicate Still(i: ResponseChain.Input) { !i.reset && !i.stb && !i.interrupt }

  /** No interrupt is pending and no idle word is due within `n` clocks. */
  predicate Calm(s: ResponseChain.State, n: nat) {
    !s.ints.pending && !s.idle.idleStb && s.idle.counter + n < s.idle.period
  }

  /** A clock of calm never adds to the work, and takes from it if the transmitter is free. */
  lemma WorkShrinks(s: ResponseChain.State, i: ResponseChain.Input, n: nat)
    requires StatesInv(s) && Calm(s, n + 1) && Still(i)
    ensures var s' := ResponseChain.Next(s, i);
            && Calm(s', n) && Work(s') <= Work(s) && (!i.txBusy && Work(s) > 0 ==> Work(s') < Work(s))
  {}

  /** The run that `ins` continues. */
  function Continue(r: ResponseChain.Run, ins: seq<ResponseChain.Input>): ResponseChain.Run {
    if ins == [] then r else ResponseChain.Step(Continue(r, ins[..|ins| - 1]), ins[|ins| - 1])
  }

  /** The clocks on which the transmitter takes what it is offered. */
  function Free(ins: seq<ResponseChain.Input>): nat {
    if ins == [] then 0 else Free(ins[..|ins| - 1]) + if ins[|ins| - 1].txBusy then 0 else 1
  }

  ghost predicate Draining(r: ResponseChain.Run, n: ResponseChain.Run, free: nat) {
    && ResponseChain.StagesInv(n) && ResponseChain.Plain(n) && n.Accepted() == r.Accepted()
    && (Work(n.S()) == 0 || Work(n.S()) + free <= Work(r.S()))
  }

  lemma DrainStep(r: ResponseChain.Run, n: ResponseChain.Run, free: nat, i: ResponseChain.Input, more: nat)
    requires Draining(r, n, free) && Calm(n.S(), more + 1) && Still(i)
    ensures Draining(r, ResponseChain.Step(n, i), free + if i.txBusy then 0 else 1)
    ensures Calm(ResponseChain.Step(n, i).S(), more)
  {
    ResponseChain.StagesStep(n, i);
    ResponseChain.PlainStep(n, i);
    WorkShrinks(n.S(), i, more);
    hide Work, Calm, ResponseChain.StagesInv, ResponseChain.Plain;
    assert ResponseChain.Step(n, i).S() == ResponseChain.Next(n.S(), i);
  }

  lemma {:induction false} KeepsDraining(r: ResponseChain.Run, ins: seq<ResponseChain.Input>, more: nat)
    requires ResponseChain.StagesInv(r) && ResponseChain.Plain(r) && Calm(r.S(), |ins| + more)
    requires forall i <- ins :: Still(i)
    ensures Draining(r, Continue(r, ins), Free(ins)) && Calm(Continue(r, ins).S(), more)
  {
    hide Work, Calm, ResponseChain.StagesInv, ResponseChain.Plain, ResponseChain.Step;
    if ins != [] {
      var before, i := ins[..|ins| - 1], ins[|ins| - 1];
      KeepsDraining(r, before, more + 1);
      DrainStep(r, Continue(r, before), Free(before), i, more);
    }
  }

  lemma NothingHeld(r: ResponseChain.Run)
    requires Work(r.S()) == 0 && ResponseChain.StagesInv(r) && ResponseChain.Plain(r)
    ensures r.HeldChars() == [] && r.HeldWords() == [] && HbNewline.Scan(r.Delivered()) == HbNewline.AtStart
  {}

  /** A port at rest has at most 145 clocks of work. */
  lemma WorkIsBounded(s: ResponseChain.State)
    requires StatesInv(s)
    ensures Work(s) <= 145
  {}

  /**
   * The chain drains: if nothing new comes in, no interrupt is pending and no idle
   * word is due, then once the transmitter has been free on 145 clocks, however far
   * apart, it has taken the text of every accepted word, and the line is ended.
   */
  lemma Drains(r: ResponseChain.Run, ins: seq<ResponseChain.Input>)
    requires ResponseChain.StagesInv(r) && ResponseChain.Plain(r) && Calm(r.S(), |ins|)
    requires (forall i <- ins :: Still(i)) && Free(ins) >= 145
    requires forall w <- r.Accepted() :: IsBusResponse(w)
    ensures var n := Continue(r, ins);
            && Keep(IsPayload, n.Delivered()) == RenderAll(r.Accepted())
            && HbNewline.Scan(n.Delivered()) == HbNewline.AtStart
  {
    var n := Continue(r, ins);
    KeepsDraining(r, ins, 0);
    WorkIsBounded(r.S());
    NothingHeld(n);
    ResponseChain.StreamAt(n);
    assert Keep(IsPayload, n.Delivered()) + ([] + []) == Keep(IsPayload, n.Delivered());
  }
}
