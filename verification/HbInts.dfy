/**
 * hbints: adds an interrupt word to the response stream and buffers one word.
 * A presented interrupt word that has not been taken yet may be overwritten by
 * an arriving response; it is then presented again later.
 */
module HbInts {
  import opened HexWord
  import opened Sequences

  datatype State = State(
    intState: bool, pending: bool, loaded: bool, stb: bool, intLoaded: bool, word: Word)

  datatype Input = Input(reset: bool, interrupt: bool, stb: bool, word: Word, busy: bool)

  const INIT := State(false, false, false, false, true, INT_WORD)

  function Busy(s: State): bool { s.stb && s.loaded }

  /** The upstream word is taken on this clock. */
  predicate Accepts(s: State, i: Input) { i.stb && !Busy(s) }

  /** The presented word is taken downstream on this clock. */
  predicate Sends(s: State, i: Input) { s.stb && !i.busy }

  /** A new assertion of the interrupt line is latched on this clock. */
  predicate Latches(s: State, i: Input) { !i.reset && i.interrupt && !s.intState }

  /** The state after a clock, by event: take a word, else move on to the interrupt word, else hold. */
  function Next(s: State, i: Input): State {
    var latch := i.interrupt && !s.intState;
    var held :=
      if Accepts(s, i) then s.(loaded := true, stb := true, intLoaded := false, word := i.word)
      else if s.stb && i.busy then s.(stb := s.pending || s.loaded)
      else s.(loaded := s.loaded && !s.stb,
              stb := s.pending && (!s.intLoaded || i.busy),
              intLoaded := true, word := INT_WORD);
    if i.reset then held.(intState := false, pending := false, loaded := false, stb := false)
    else held.(intState := latch || (s.intState && (s.pending || i.interrupt)),
               pending := latch || (s.pending && !(Sends(s, i) && s.intLoaded)))
  }

  /** An interrupt word is presented only for a pending interrupt, a response only from the buffer. */
  predicate Inv(s: State) {
    && (s.pending ==> s.intState)
    && (s.loaded ==> s.stb && !s.intLoaded)
    && (s.stb && !s.loaded ==> s.pending && s.intLoaded)
    && (s.intLoaded ==> s.word == INT_WORD)
  }

  lemma InvStep(s: State, i: Input)
    requires Inv(s)
    ensures Inv(Next(s, i))
  {}

  /** The words presented but not yet taken. */
  function Held(s: State): seq<Word> { if s.stb then [s.word] else [] }

  /** What the outside sees of the interrupt on a clock: its line, and whether an interrupt word is handed on. */
  datatype Clock = Clock(line: bool, told: bool)

  function Lines(w: seq<Clock>): seq<bool> { seq(|w|, k requires 0 <= k < |w| => w[k].line) }

  /** The interrupt words handed on. */
  function Told(w: seq<Clock>): nat {
    if w == [] then 0 else Told(w[..|w| - 1]) + if w[|w| - 1].told then 1 else 0
  }

  /**
   * The assertions that call for an interrupt word: the line is high while armed.
   * A high line disarms; a low one arms again once no interrupt word is owed.
   */
  function Asserted(w: seq<Clock>): nat {
    if w == [] then 0
    else Asserted(w[..|w| - 1]) + if w[|w| - 1].line && Armed(w[..|w| - 1]) then 1 else 0
  }

  predicate Armed(w: seq<Clock>) {
    w == [] ||
    (!w[|w| - 1].line && (Armed(w[..|w| - 1]) || Asserted(w[..|w| - 1]) == Told(w[..|w| - 1])))
  }

  /**
   * A run since the last reset: words taken in, words handed on, and the history
   * of the interrupt.
   */
  datatype Run = Run(s: State, taken: seq<Word>, sent: seq<Word>, waves: seq<Clock>)

  function Start(s: State): Run { Run(s, [], [], []) }

  function Wave(s: State, i: Input): Clock { Clock(i.interrupt, Sends(s, i) && s.word == INT_WORD) }

  function Step(r: Run, i: Input): Run {
    if i.reset then Start(Next(r.s, i))
    else Run(
      Next(r.s, i),
      if Accepts(r.s, i) then r.taken + [i.word] else r.taken,
      if Sends(r.s, i) then r.sent + [r.s.word] else r.sent,
      r.waves + [Wave(r.s, i)])
  }

  function After(ins: seq<Input>): Run {
    if ins == [] then Start(INIT) else Step(After(ins[..|ins| - 1]), ins[|ins| - 1])
  }

  predicate IsOther(w: Word) { w != INT_WORD }

  predicate RunInv(r: Run) {
    && Inv(r.s)
    && Keep(IsOther, r.sent + Held(r.s)) == Keep(IsOther, r.taken)
  }

  lemma Conserves(r: Run, i: Input)
    requires RunInv(r)
    ensures RunInv(Step(r, i))
  {
    InvStep(r.s, i);
    var n := Step(r, i);
    if !i.reset {
      KeepAppend(IsOther, r.sent, Held(r.s));
      KeepAppend(IsOther, n.sent, Held(n.s));
      KeepAppend(IsOther, r.sent, [r.s.word]);
      if Accepts(r.s, i) {
        KeepAppend(IsOther, r.taken, [i.word]);
        assert Keep(IsOther, Held(r.s)) == [];
        assert Keep(IsOther, n.sent) == Keep(IsOther, r.sent);
      } else if Sends(r.s, i) {
        assert n.sent == r.sent + Held(r.s);
        assert Keep(IsOther, Held(n.s)) == [];
      } else {
        assert Keep(IsOther, Held(n.s)) == Keep(IsOther, Held(r.s));
      }
    }
  }

  lemma {:induction false} Reachable(ins: seq<Input>)
    ensures RunInv(After(ins))
  {
    if ins != [] {
      Reachable(ins[..|ins| - 1]);
      Conserves(After(ins[..|ins| - 1]), ins[|ins| - 1]);
    }
  }

  predicate IsInt(w: Word) { w == INT_WORD }

  /**
   * When no response is itself an interrupt word: the interrupt words handed on
   * and the pending one are as many as the assertions, and the state is armed
   * exactly when the waveform says so.
   */
  predicate CountInv(r: Run) {
    && (r.s.stb && !r.s.intLoaded ==> r.s.word != INT_WORD)
    && (forall w <- r.taken :: w != INT_WORD)
    && |Keep(IsInt, r.sent)| == Told(r.waves)
    && Told(r.waves) + (if r.s.pending then 1 else 0) == Asserted(r.waves)
    && (r.s.intState <==> !Armed(r.waves))
  }

  lemma WavesOn(w: seq<Clock>, c: Clock)
    ensures Told(w + [c]) == Told(w) + if c.told then 1 else 0
    ensures Asserted(w + [c]) == Asserted(w) + if c.line && Armed(w) then 1 else 0
    ensures Armed(w + [c]) == (!c.line && (Armed(w) || Asserted(w) == Told(w)))
  {
    assert (w + [c])[..|w|] == w;
  }

  lemma CountStep(r: Run, i: Input)
    requires RunInv(r) && CountInv(r)
    requires i.stb ==> i.word != INT_WORD
    ensures CountInv(Step(r, i))
  {
    KeepAppend(IsInt, r.sent, [r.s.word]);
    WavesOn(r.waves, Wave(r.s, i));
  }

  lemma {:induction false} Counted(ins: seq<Input>)
    requires forall i <- ins :: i.stb ==> i.word != INT_WORD
    ensures CountInv(After(ins))
  {
    if ins != [] {
      Counted(ins[..|ins| - 1]);
      Reachable(ins[..|ins| - 1]);
      CountStep(After(ins[..|ins| - 1]), ins[|ins| - 1]);
    }
  }

  /**
   * Interrupt conservation, for inputs that are not themselves interrupt words:
   * removing the interrupt words from what was handed on leaves what was taken
   * in, less the one buffered word, and the interrupt words handed on plus the
   * pending one number the assertions in the waveform.
   */
  lemma InterruptConservation(ins: seq<Input>)
    requires forall i <- ins :: i.stb ==> i.word != INT_WORD
    ensures var r := After(ins);
            && Keep(IsOther, r.sent) + (if r.s.loaded then [r.s.word] else []) == r.taken
            && |Keep(IsInt, r.sent)| + (if r.s.pending then 1 else 0) == Asserted(r.waves)
  {
    Reachable(ins);
    Counted(ins);
    var r := After(ins);
    KeepAppend(IsOther, r.sent, Held(r.s));
    KeepAll(IsOther, r.taken);
  }

  // Which pulses of the line are reported.

  predicate Rises(w: seq<Clock>, k: nat)
    requires k < |w|
  {
    w[k].line && (k == 0 || !w[k - 1].line)
  }

  function Pulses(w: seq<Clock>): nat {
    if w == [] then 0 else Pulses(w[..|w| - 1]) + if Rises(w, |w| - 1) then 1 else 0
  }

  /** Since clock `k` the line has been low, and on that clock no interrupt word was owed. */
  predicate SettledAt(w: seq<Clock>, k: nat)
    requires k < |w|
  {
    Asserted(w[..k]) == Told(w[..k]) && forall j :: k <= j < |w| ==> !w[j].line
  }

  /** Armed: the line has never been high, or has been low since a clock on which no interrupt word was owed. */
  lemma {:induction false} ArmedWhenSettled(w: seq<Clock>)
    ensures Armed(w) <==> w == [] || exists k: nat :: k < |w| && SettledAt(w, k)
  {
    if w != [] {
      var init, n := w[..|w| - 1], |w| - 1;
      ArmedWhenSettled(init);
      if Armed(w) {
        if init == [] || Asserted(init) == Told(init) {
          assert SettledAt(w, n);
        } else {
          var k: nat :| k < |init| && SettledAt(init, k);
          assert w[..k] == init[..k];
          assert SettledAt(w, k);
        }
      } else {
        forall k: nat | k < |w| ensures !SettledAt(w, k) {
          assert w[..k] == init[..k];
          assert k < n && SettledAt(w, k) ==> SettledAt(init, k);
        }
      }
    }
  }

  predicate AllArmed(w: seq<Clock>) {
    forall k: nat :: k < |w| && Rises(w, k) ==> Armed(w[..k])
  }

  /** A line that has just been high is not armed, so a high line counts once. */
  lemma HighCountsOnce(w: seq<Clock>)
    requires w != []
    ensures w[|w| - 1].line && Armed(w[..|w| - 1]) ==> Rises(w, |w| - 1)
  {}

  lemma AllArmedOn(w: seq<Clock>)
    requires w != []
    ensures AllArmed(w) <==> AllArmed(w[..|w| - 1]) && (Rises(w, |w| - 1) ==> Armed(w[..|w| - 1]))
  {
    var init, n := w[..|w| - 1], |w| - 1;
    forall k: nat | k < n ensures Rises(w, k) == Rises(init, k) && w[..k] == init[..k] {}
    if AllArmed(w) {
      forall k: nat | k < n && Rises(init, k) ensures Armed(init[..k]) {
        assert Rises(w, k) && w[..k] == init[..k];
      }
    }
  }

  /**
   * Every pulse of the line is one interrupt if and only if each finds the line
   * armed, by `ArmedWhenSettled` if it has been low since a clock on which the
   * interrupt word of the pulse before had gone out; otherwise there are fewer.
   */
  lemma {:induction false} PulsesReported(w: seq<Clock>)
    ensures Asserted(w) <= Pulses(w)
    ensures Asserted(w) == Pulses(w) <==> AllArmed(w)
  {
    if w != [] {
      PulsesReported(w[..|w| - 1]);
      HighCountsOnce(w);
      AllArmedOn(w);
    }
  }

  // When the interrupt word is presented.

  predicate Presents(s: State) { s.stb && s.word == INT_WORD }

  /**
   * A pending interrupt word that is not presented is presented next if and only if
   * no response comes in and either one is just being handed on or, nothing being
   * presented, downstream is busy (or the registers have only just been reset).
   * On an idle link it waits.
   */
  lemma PresentedNext(s: State, i: Input)
    requires Inv(s) && (s.intLoaded <==> s.word == INT_WORD) && s.pending && !Presents(s) && !i.reset
    requires i.stb ==> i.word != INT_WORD
    ensures Presents(Next(s, i)) <==> !Accepts(s, i) && (if s.stb then !i.busy else i.busy || !s.intLoaded)
  {}

  /** Once presented it stays until it is taken or a response overwrites it, and then it is still pending. */
  lemma StaysPending(s: State, i: Input)
    requires Inv(s) && s.pending && !i.reset
    ensures Next(s, i).pending <==> !(Sends(s, i) && s.intLoaded) || Latches(s, i)
    ensures Presents(s) && i.busy && !Accepts(s, i) ==> Presents(Next(s, i))
  {}

  class Ints {
    var intState: bool
    var pending: bool
    var loaded: bool
    var stb: bool
    var intLoaded: bool
    var word: Word

    function Regs(): State
      reads this
    {
      State(intState, pending, loaded, stb, intLoaded, word)
    }

    constructor ()
      ensures Regs() == INIT
    {
      intState, pending, loaded, stb := false, false, false, false;
      intLoaded, word := true, INT_WORD;
    }

    method Step(i: Input)
      modifies this
      ensures Regs() == Next(old(Regs()), i)
    {
      var busy := stb && loaded;
      var s := Regs();

      if i.reset {
        intState := false;
      } else if i.interrupt && !s.intState {
        intState := true;
      } else if !s.pending && !i.interrupt {
        intState := false;
      }

      if i.reset {
        pending := false;
      } else if i.interrupt && !s.intState {
        pending := true;
      } else if s.stb && !i.busy && s.intLoaded {
        pending := false;
      }

      if i.reset {
        loaded := false;
      } else if i.stb && !busy {
        loaded := true;
      } else if s.stb && !i.busy {
        loaded := false;
      }

      if i.reset {
        stb := false;
      } else if i.stb && !busy {
        stb := true;
      } else if s.pending && (!s.intLoaded || i.busy) {
        stb := true;
      } else if !s.loaded || !i.busy {
        stb := false;
      }

      if i.stb && !busy {
        intLoaded := false;
        word := i.word;
      } else if !i.busy || !s.stb {
        word := INT_WORD;
        intLoaded := true;
      }
    }
  }
}
