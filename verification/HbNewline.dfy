/**
 * hbnewline: adds CR LF when the response stream pauses.  The CR gives way to a
 * character that arrives before it is taken; the LF after a taken CR does not.
 */
module HbNewline {
  import opened HexWord
  import opened Sequences

  datatype State = State(lastCr: bool, crState: bool, loaded: bool, stb: bool, byte: Byte7)

  datatype Input = Input(reset: bool, stb: bool, byte: Byte7, busy: bool)

  const INIT := State(true, false, false, false, FILL)

  function Busy(s: State, i: Input): bool {
    (i.busy && s.stb && s.loaded) || (s.crState && !i.busy)
  }

  predicate Accepts(s: State, i: Input) { i.stb && !Busy(s, i) }

  predicate Sends(s: State, i: Input) { s.stb && !i.busy }

  function Next(s: State, i: Input): State {
    if i.reset then INIT
    else if Accepts(s, i) then State(i.byte == CR, i.byte == CR, true, true, i.byte)
    else if i.busy then s
    else if !s.lastCr then State(!i.stb, true, false, !i.stb, CR)
    else if s.crState then State(s.lastCr, false, true, true, LF)
    else State(s.lastCr, false, false, false, FILL)
  }

  function Held(s: State): seq<Byte7> { if s.stb then [s.byte] else [] }

  /** What the registers mean: nothing, a CR, a line feed, or a character. */
  predicate Inv(s: State) {
    && (!s.stb ==> s.lastCr && !s.crState && !s.loaded)
    && (s.crState ==> s.stb && s.lastCr && s.byte == CR)
    && (s.stb && s.byte == CR ==> s.crState)
    && (s.stb && !s.loaded ==> s.crState)
    && (s.stb && s.lastCr && !s.crState ==> s.byte == LF && s.loaded)
  }

  lemma InvStep(s: State, i: Input)
    requires Inv(s)
    ensures Inv(Next(s, i))
  {}

  datatype Run = Run(s: State, taken: seq<Byte7>, sent: seq<Byte7>)

  function Start(s: State): Run { Run(s, [], []) }

  function Step(r: Run, i: Input): Run {
    if i.reset then Start(Next(r.s, i))
    else Run(
      Next(r.s, i),
      if Accepts(r.s, i) then r.taken + [i.byte] else r.taken,
      if Sends(r.s, i) then r.sent + [r.s.byte] else r.sent)
  }

  function After(ins: seq<Input>): Run {
    if ins == [] then Start(INIT) else Step(After(ins[..|ins| - 1]), ins[|ins| - 1])
  }

  /** Every CR is followed at once by an LF; one just sent has its LF presented. */
  predicate CrThenLf(r: Run) {
    && (forall k :: 0 <= k < |r.sent| - 1 && r.sent[k] == CR ==> r.sent[k + 1] == LF)
    && (r.sent != [] && r.sent[|r.sent| - 1] == CR ==> r.s.stb && r.s.loaded && r.s.byte == LF)
  }

  predicate RunInv(r: Run) {
    && Inv(r.s)
    && Keep(IsText, r.sent + Held(r.s)) == Keep(IsText, r.taken)
    && CrThenLf(r)
  }

  /** What one clock does to the text held: take a character, send one, or both. */
  lemma TextStep(s: State, i: Input)
    requires Inv(s) && !i.reset
    ensures Keep(IsText, Held(Next(s, i)))
         == (if Sends(s, i) then [] else Keep(IsText, Held(s)))
          + (if Accepts(s, i) then Keep(IsText, [i.byte]) else [])
  {}

  /** Line structure apart, no character is added, lost or reordered. */
  lemma TextConserves(r: Run, i: Input)
    requires RunInv(r) && !i.reset
    ensures var n := Step(r, i); Keep(IsText, n.sent + Held(n.s)) == Keep(IsText, n.taken)
  {
    var n := Step(r, i);
    TextStep(r.s, i);
    KeepAppend(IsText, r.sent, Held(r.s));
    KeepAppend(IsText, n.sent, Held(n.s));
    KeepAppend(IsText, r.taken, [i.byte]);
  }

  lemma CrThenLfStep(r: Run, i: Input)
    requires Inv(r.s) && CrThenLf(r) && !i.reset
    ensures CrThenLf(Step(r, i))
  {
    var n := Step(r, i);
    forall k | 0 <= k < |n.sent| - 1 && n.sent[k] == CR ensures n.sent[k + 1] == LF {
      assert r.sent[k] == CR;
    }
  }

  lemma Conserves(r: Run, i: Input)
    requires RunInv(r)
    ensures RunInv(Step(r, i))
  {
    InvStep(r.s, i);
    if !i.reset {
      TextConserves(r, i);
      CrThenLfStep(r, i);
    }
  }

  /** A CR added at a pause and not yet taken gives way to a character that arrives; once it is taken the LF comes first. */
  lemma CrGivesWay(s: State, i: Input)
    requires Inv(s) && s.stb && s.byte == CR && !s.loaded && !i.reset && i.stb
    ensures var n := Next(s, i);
            if i.busy then n.stb && n.byte == i.byte && Accepts(s, i) else n.stb && n.byte == LF && !Accepts(s, i)
  {}

  // Line grammar.

  /** Where a delivered character sequence leaves the line. */
  datatype Line = AtStart | InText | AfterCr | Broken

  function Scan(s: seq<Byte7>): Line {
    if s == [] then AtStart
    else
      var c := s[|s| - 1];
      match Scan(s[..|s| - 1])
      case AtStart => if IsText(c) then InText else Broken
      case InText => if IsText(c) then InText else if c == CR then AfterCr else Broken
      case AfterCr => if c == LF then AtStart else Broken
      case Broken => Broken
  }

  predicate AllText(s: seq<Byte7>) { forall k :: 0 <= k < |s| ==> IsText(s[k]) }

  /** A nonempty line of text and its CR LF. */
  predicate IsLine(s: seq<Byte7>) {
    |s| >= 3 && s[|s| - 2] == CR && s[|s| - 1] == LF && AllText(s[..|s| - 2])
  }

  /** A line whose end has not come yet: text, or text and its CR. */
  predicate IsOpenLine(s: seq<Byte7>) {
    AllText(s) || (|s| >= 2 && s[|s| - 1] == CR && AllText(s[..|s| - 1]))
  }

  function Identity(s: seq<Byte7>): seq<Byte7> { s }

  /** `s` is some number of whole lines and an open one. */
  ghost predicate IsLines(s: seq<Byte7>) {
    exists lines: seq<seq<Byte7>>, tail: seq<Byte7> :: Splits(s, lines, tail)
  }

  predicate Splits(s: seq<Byte7>, lines: seq<seq<Byte7>>, tail: seq<Byte7>) {
    s == Flatten(Identity, lines) + tail && IsOpenLine(tail) && forall l <- lines :: IsLine(l)
  }

  lemma LineEnds(tail: seq<Byte7>)
    requires IsOpenLine(tail) && tail != [] && tail[|tail| - 1] == CR
    ensures IsLine(tail + [LF])
  {
    var whole := tail + [LF];
    assert whole[..|whole| - 2] == tail[..|tail| - 1];
  }

  lemma LineGrows(tail: seq<Byte7>, c: Byte7)
    requires IsOpenLine(tail) && (tail == [] || tail[|tail| - 1] != CR)
    requires IsText(c) || (c == CR && tail != [])
    ensures IsOpenLine(tail + [c])
  {
    assert (tail + [c])[..|tail|] == tail;
  }

  lemma SplitsOn(s: seq<Byte7>, lines: seq<seq<Byte7>>, tail: seq<Byte7>, c: Byte7)
    requires s == Flatten(Identity, lines) + tail
    ensures s + [c] == Flatten(Identity, lines) + (tail + [c]) == Flatten(Identity, lines + [tail + [c]]) + []
  {
    FlattenSnoc(Identity, lines, tail + [c]);
  }

  /** The scanner accepts only line sequences, and knows where in a line it is. */
  lemma {:induction false} ScanIsLines(s: seq<Byte7>) returns (lines: seq<seq<Byte7>>, tail: seq<Byte7>)
    requires Scan(s) != Broken
    ensures Splits(s, lines, tail)
    ensures Scan(s) == AtStart <==> tail == []
    ensures Scan(s) == AfterCr <==> tail != [] && tail[|tail| - 1] == CR
  {
    if s == [] {
      return [], [];
    }
    var init, c := s[..|s| - 1], s[|s| - 1];
    lines, tail := ScanIsLines(init);
    assert s == init + [c];
    SplitsOn(init, lines, tail, c);
    if Scan(s) == AtStart {
      LineEnds(tail);
      return lines + [tail + [c]], [];
    }
    LineGrows(tail, c);
    return lines, tail + [c];
  }

  /** The presented character is the one the line delivered so far calls for. */
  predicate OnLine(r: Run) {
    var line := Scan(r.sent);
    if !r.s.stb then line == AtStart
    else if r.s.crState then line == InText
    else if r.s.lastCr then line == AfterCr
    else IsText(r.s.byte) && (line == AtStart || line == InText)
  }

  lemma OnLineStep(r: Run, i: Input)
    requires Inv(r.s) && OnLine(r)
    requires i.stb ==> IsText(i.byte)
    ensures OnLine(Step(r, i))
  {
    assert (r.sent + [r.s.byte])[..|r.sent|] == r.sent;
  }

  lemma {:induction false} Reachable(ins: seq<Input>)
    ensures RunInv(After(ins))
  {
    if ins != [] {
      Reachable(ins[..|ins| - 1]);
      Conserves(After(ins[..|ins| - 1]), ins[|ins| - 1]);
    }
  }

  lemma {:induction false} StaysOnLine(ins: seq<Input>)
    requires forall i <- ins :: i.stb ==> IsText(i.byte)
    ensures OnLine(After(ins))
  {
    if ins != [] {
      StaysOnLine(ins[..|ins| - 1]);
      Reachable(ins[..|ins| - 1]);
      OnLineStep(After(ins[..|ins| - 1]), ins[|ins| - 1]);
    }
  }

  /**
   * Newline grammar: for CR- and LF-free input the characters delivered since a
   * reset are nonempty lines, each ended by CR LF, and one open line.
   */
  lemma NewlineGrammar(ins: seq<Input>)
    requires forall i <- ins :: i.stb ==> IsText(i.byte)
    ensures IsLines(After(ins).sent)
  {
    StaysOnLine(ins);
    var lines, tail := ScanIsLines(After(ins).sent);
  }

  class Newline {
    var lastCr: bool
    var crState: bool
    var loaded: bool
    var stb: bool
    var byte: Byte7

    function Regs(): State
      reads this
    {
      State(lastCr, crState, loaded, stb, byte)
    }

    constructor ()
      ensures Regs() == INIT
    {
      lastCr, crState, stb, loaded, byte := true, false, false, false, FILL;
    }

    method Step(i: Input)
      modifies this
      ensures Regs() == Next(old(Regs()), i)
    {
      var busy := (i.busy && stb && loaded) || (crState && !i.busy);
      if i.reset {
        crState, lastCr, stb, loaded, byte := false, true, false, false, FILL;
      } else if i.stb && !busy {
        stb := i.stb;
        byte := i.byte;
        crState := i.byte == CR;
        lastCr := i.byte == CR;
        loaded := true;
      } else if !i.busy {
        if !lastCr {
          crState := true;
          byte := CR;
          lastCr := !i.stb;
          stb := !i.stb;
          loaded := false;
        } else if crState {
          crState := false;
          byte := LF;
          stb := true;
          loaded := true;
        } else {
          loaded := false;
          stb := false;
          byte := FILL;
        }
      }
    }
  }
}
