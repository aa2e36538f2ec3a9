/**
 * hbidle: forwards response words and adds an idle word after `period` clocks
 * without one, so that the far end can tell the link is alive.
 */
module HbIdle {
  import opened HexWord
  import opened Sequences

  /** `period` is the wrap point of the idle counter: 2^30, or 2^23 in simulation. */
  datatype State = State(period: nat, idleStb: bool, counter: nat, stb: bool, word: Word)

  datatype Input = Input(reset: bool, stb: bool, word: Word, busy: bool)

  const HARDWARE_PERIOD := 0x4000_0000

  function Init(period: nat): State { State(period, false, 0, false, IDLE_WORD) }

  function Busy(s: State, i: Input): bool { s.stb && i.busy }

  predicate Accepts(s: State, i: Input) { i.stb && !Busy(s, i) }

  predicate Sends(s: State, i: Input) { s.stb && !i.busy }

  function Next(s: State, i: Input): State {
    var count := !i.reset && !i.stb;
    State(
      s.period,
      count && s.counter + 1 == s.period,
      if count && s.counter + 1 != s.period then s.counter + 1 else 0,
      !i.reset && (Accepts(s, i) || (if s.stb then i.busy else s.idleStb)),
      if Accepts(s, i) then i.word else if i.busy then s.word else IDLE_WORD)
  }

  function Held(s: State): seq<Word> { if s.stb then [s.word] else [] }

  datatype Run = Run(s: State, taken: seq<Word>, sent: seq<Word>)

  function Start(s: State): Run { Run(s, [], []) }

  function Step(r: Run, i: Input): Run {
    if i.reset then Start(Next(r.s, i))
    else Run(
      Next(r.s, i),
      if Accepts(r.s, i) then r.taken + [i.word] else r.taken,
      if Sends(r.s, i) then r.sent + [r.s.word] else r.sent)
  }

  predicate IsOther(w: Word) { w != IDLE_WORD }

  /**
   * The word register is not reset: only after one clock that is not stalled
   * does an empty output again hold the idle word.
   */
  predicate Inv(s: State) { !s.stb && s.word != IDLE_WORD ==> !s.idleStb }

  predicate RunInv(r: Run) {
    && Inv(r.s)
    && Keep(IsOther, r.sent + Held(r.s)) == Keep(IsOther, r.taken)
  }

  /**
   * Idle words apart, nothing is added or lost.  An empty output still holding a
   * word from before a reset must not meet a stalled clock; the next stage is
   * itself empty then, so it does not.
   */
  lemma Conserves(r: Run, i: Input)
    requires RunInv(r)
    requires !r.s.stb && r.s.word != IDLE_WORD ==> !i.busy
    ensures RunInv(Step(r, i))
    ensures var n := Next(r.s, i); !n.stb && n.word != IDLE_WORD ==> i.reset
  {
    var n := Step(r, i);
    if !i.reset {
      KeepAppend(IsOther, r.sent, Held(r.s));
      KeepAppend(IsOther, n.sent, Held(n.s));
      KeepAppend(IsOther, r.sent, [r.s.word]);
      if Accepts(r.s, i) {
        KeepAppend(IsOther, r.taken, [i.word]);
        assert n.sent == r.sent + Held(r.s);
      } else if Sends(r.s, i) {
        assert n.sent == r.sent + Held(r.s);
        assert Keep(IsOther, Held(n.s)) == [];
      } else {
        assert Keep(IsOther, Held(n.s)) == Keep(IsOther, Held(r.s));
      }
    }
  }

  // When an idle word is added.

  predicate Quiet(i: Input) { !i.reset && !i.stb }

  function NextAll(s: State, ins: seq<Input>): State {
    if ins == [] then s else Next(NextAll(s, ins[..|ins| - 1]), ins[|ins| - 1])
  }

  /** The output is empty, and the counter has not wrapped. */
  predicate Resting(s: State) { !s.stb && !s.idleStb && s.word == IDLE_WORD && s.counter < s.period }

  /** An empty output stays empty until the counter has run its period, and then the idle word is due. */
  lemma {:induction false} IdleAfterPeriod(s: State, ins: seq<Input>)
    requires Resting(s) && (forall i <- ins :: Quiet(i)) && |ins| <= s.period - s.counter
    ensures var n := NextAll(s, ins);
            && n.period == s.period && !n.stb && n.word == IDLE_WORD
            && (n.idleStb <==> |ins| == s.period - s.counter)
            && (!n.idleStb ==> n.counter == s.counter + |ins|)
  {
    if ins != [] {
      assert Quiet(ins[|ins| - 1]);
      IdleAfterPeriod(s, ins[..|ins| - 1]);
    }
  }

  /**
   * An idle word is presented on the clock after a full period without a word, not
   * earlier, and stays until it is taken.
   */
  lemma IdleAppears(s: State, ins: seq<Input>, i: Input)
    requires Resting(s) && (forall j <- ins :: Quiet(j)) && Quiet(i) && |ins| <= s.period - s.counter
    ensures var n := NextAll(s, ins + [i]);
            && (n.stb <==> |ins| == s.period - s.counter) && n.word == IDLE_WORD
            && forall j: Input :: Quiet(j) && j.busy && n.stb ==> Next(n, j).stb && Next(n, j).word == IDLE_WORD
  {
    IdleAfterPeriod(s, ins);
    assert (ins + [i])[..|ins|] == ins;
  }

  class Idle {
    const period: nat
    var idleStb: bool
    var counter: nat
    var stb: bool
    var word: Word

    function Regs(): State
      reads this
    {
      State(period, idleStb, counter, stb, word)
    }

    constructor (period: nat)
      ensures Regs() == Init(period)
    {
      this.period := period;
      idleStb, counter, stb, word := false, 0, false, IDLE_WORD;
    }

    method Step(i: Input)
      modifies this
      ensures Regs() == Next(old(Regs()), i)
    {
      var s := Regs();
      var busy := s.stb && i.busy;

      if i.reset || i.stb {
        idleStb := false;
        counter := 0;
      } else if s.counter + 1 == period {
        idleStb, counter := true, 0;
      } else {
        idleStb, counter := false, s.counter + 1;
      }

      if i.reset {
        stb := false;
      } else if i.stb && !busy {
        stb := true;
      } else if s.idleStb && !s.stb {
        stb := true;
      } else if !i.busy {
        stb := false;
      }

      if i.stb && !busy {
        word := i.word;
      } else if !i.busy {
        word := IDLE_WORD;
      }
    }
  }
}
