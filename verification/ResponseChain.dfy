/**
 * The response half of hbbus: hbints, hbidle, hbdeword, hbgenhex and hbnewline
 * in a row, each stalled by the one after it.  The theorems hold for every
 * interrupt waveform, every sequence of offered words, every transmitter stall
 * and every placing of resets; histories restart at a reset.
 */
module ResponseChain {
  import opened HexWord
  import opened Sequences
  import HbInts
  import HbIdle
  import HbDeword
  import HbGenhex
  import HbNewline

  datatype State = State(
    ints: HbInts.State, idle: HbIdle.State, dw: HbDeword.State, gx: HbGenhex.State, nl: HbNewline.State)

  datatype Input = Input(reset: bool, interrupt: bool, stb: bool, word: Word, txBusy: bool)

  // The wires between the stages.

  function NlIn(s: State, i: Input): HbNewline.Input {
    HbNewline.Input(i.reset, s.gx.stb, s.gx.byte, i.txBusy)
  }

  function GxIn(s: State, i: Input): HbGenhex.Input {
    HbGenhex.Input(i.reset, s.dw.stb, s.dw.bits, HbNewline.Busy(s.nl, NlIn(s, i)))
  }

  function DwIn(s: State, i: Input): HbDeword.Input {
    HbDeword.Input(i.reset, s.idle.stb, s.idle.word, HbGenhex.Busy(s.gx, GxIn(s, i)))
  }

  function IdleIn(s: State, i: Input): HbIdle.Input {
    HbIdle.Input(i.reset, s.ints.stb, s.ints.word, s.dw.stb)
  }

  function IntsIn(s: State, i: Input): HbInts.Input {
    HbInts.Input(i.reset, i.interrupt, i.stb, i.word, HbIdle.Busy(s.idle, IdleIn(s, i)))
  }

  function Next(s: State, i: Input): State {
    State(
      HbInts.Next(s.ints, IntsIn(s, i)),
      HbIdle.Next(s.idle, IdleIn(s, i)),
      HbDeword.Next(s.dw, DwIn(s, i)),
      HbGenhex.Next(s.gx, GxIn(s, i)),
      HbNewline.Next(s.nl, NlIn(s, i)))
  }

  predicate Initial(s: State) {
    && s.ints == HbInts.INIT
    && s.idle == HbIdle.Init(s.idle.period)
    && HbDeword.Initial(s.dw)
    && s.gx == HbGenhex.INIT
    && s.nl == HbNewline.INIT
  }

  /** The five stages and what each has taken and handed on since the last reset. */
  datatype Run = Run(
    ints: HbInts.Run, idle: HbIdle.Run, dw: HbDeword.Run, gx: HbGenhex.Run, nl: HbNewline.Run)
  {
    function S(): State { State(ints.s, idle.s, dw.s, gx.s, nl.s) }

    /** The response words taken from the bus executor. */
    function Accepted(): seq<Word> { ints.taken }

    /** Every word put on the wire, added ones included. */
    function Words(): seq<Word> { dw.taken }

    /** The characters the transmitter took. */
    function Delivered(): seq<Byte7> { nl.sent }

    /** The words not yet broken into characters, oldest first. */
    function HeldWords(): seq<Word> { HbIdle.Held(idle.s) + HbInts.Held(ints.s) }

    /** The characters on their way, oldest first. */
    function HeldChars(): seq<Byte7> {
      HbNewline.Held(nl.s) + HbGenhex.Held(gx.s) + Chars(HbDeword.Held(dw.s))
    }
  }

  function Start(s: State): Run {
    Run(HbInts.Start(s.ints), HbIdle.Start(s.idle), HbDeword.Start(s.dw),
        HbGenhex.Start(s.gx), HbNewline.Start(s.nl))
  }

  function Step(r: Run, i: Input): Run {
    var s := r.S();
    Run(HbInts.Step(r.ints, IntsIn(s, i)), HbIdle.Step(r.idle, IdleIn(s, i)),
        HbDeword.Step(r.dw, DwIn(s, i)), HbGenhex.Step(r.gx, GxIn(s, i)),
        HbNewline.Step(r.nl, NlIn(s, i)))
  }

  function After(s: State, ins: seq<Input>): Run {
    if ins == [] then Start(s) else Step(After(s, ins[..|ins| - 1]), ins[|ins| - 1])
  }

  /** Each stage takes exactly what the one before it hands on. */
  predicate Linked(r: Run) {
    && r.ints.sent == r.idle.taken
    && r.idle.sent == r.dw.taken
    && r.dw.sent == r.gx.taken
    && r.gx.sent == r.nl.taken
  }

  predicate StagesInv(r: Run) {
    && HbInts.RunInv(r.ints)
    && HbIdle.RunInv(r.idle)
    && HbDeword.RunInv(r.dw)
    && HbGenhex.RunInv(r.gx)
    && HbNewline.RunInv(r.nl)
    && Linked(r)
    && (!r.idle.s.stb && r.idle.s.word != IDLE_WORD ==> !r.dw.s.stb)
    && r.gx.s.byte != LF
  }

  /** What one stage hands on in a clock is what the next one takes. */
  lemma LinkedStep(r: Run, i: Input)
    requires Linked(r)
    ensures Linked(Step(r, i))
  {}

  /** The word of an empty hbidle is stale only right after a reset, when the serialiser is empty too. */
  lemma StaleStep(r: Run, i: Input)
    requires StagesInv(r)
    ensures var n := Step(r, i); !n.idle.s.stb && n.idle.s.word != IDLE_WORD ==> !n.dw.s.stb
    ensures Step(r, i).gx.s.byte != LF
  {
    HbIdle.Conserves(r.idle, IdleIn(r.S(), i));
  }

  lemma StagesStep(r: Run, i: Input)
    requires StagesInv(r)
    ensures StagesInv(Step(r, i))
  {
    var s := r.S();
    LinkedStep(r, i);
    StaleStep(r, i);
    HbInts.Conserves(r.ints, IntsIn(s, i));
    HbIdle.Conserves(r.idle, IdleIn(s, i));
    HbDeword.Conserves(r.dw, DwIn(s, i));
    HbGenhex.Conserves(r.gx, GxIn(s, i));
    HbNewline.Conserves(r.nl, NlIn(s, i));
  }

  // Word boundaries.

  /** `x` is the text of the first few of `words`. */
  ghost predicate AtBoundary(x: seq<Byte7>, words: seq<Word>) {
    exists k :: 0 <= k <= |words| && x == Text(words[..k])
  }

  lemma AllIsBoundary(words: seq<Word>)
    ensures AtBoundary(Text(words), words)
  {
    assert words[..|words|] == words;
  }

  lemma BoundaryGrows(x: seq<Byte7>, words: seq<Word>, more: seq<Word>)
    requires AtBoundary(x, words)
    ensures AtBoundary(x, words + more)
  {
    var k :| 0 <= k <= |words| && x == Text(words[..k]);
    assert (words + more)[..k] == words[..k];
  }

  /**
   * A stage that is empty, or holds no character of a word, is between words:
   * what it has handed on ends where a word ends.
   */
  ghost predicate Atomic(r: Run) {
    && (!r.dw.s.stb || r.dw.s.bits >= 16 ==> AtBoundary(Keep(IsText, Chars(r.dw.sent)), r.Words()))
    && (!r.gx.s.stb || r.gx.s.byte == CR ==> AtBoundary(Keep(IsText, r.gx.sent), r.Words()))
    && (!r.nl.s.stb || !IsText(r.nl.s.byte) ==> AtBoundary(Keep(IsText, r.nl.sent), r.Words()))
  }

  lemma {:induction false} CharsOfUnits(ws: seq<Word>)
    ensures Chars(Flatten(Units, ws)) == RenderAll(ws)
  {
    if ws != [] {
      var n := |ws| - 1;
      CharsOfUnits(ws[..n]);
      CharsAppend(Flatten(Units, ws[..n]), Units(ws[n]));
    }
  }

  /** Between words the serialiser has handed on the text of every word it took. */
  lemma SerialiserDone(r: HbDeword.Run)
    requires HbDeword.RunInv(r) && !r.s.stb
    ensures AtBoundary(Keep(IsText, Chars(r.sent)), r.taken)
  {
    CharsOfUnits(r.taken);
    AllIsBoundary(r.taken);
    assert HbDeword.Held(r.s) == [];
    assert r.sent + [] == r.sent;
    assert Chars(r.sent) == RenderAll(r.taken);
  }

  lemma SerialiserStep(r: Run, i: Input)
    requires StagesInv(r) && Atomic(r) && !i.reset
    ensures var n := Step(r, i);
            !n.dw.s.stb || n.dw.s.bits >= 16 ==> AtBoundary(Keep(IsText, Chars(n.dw.sent)), n.Words())
  {
    var n, j := Step(r, i), DwIn(r.S(), i);
    StagesStep(r, i);
    if HbDeword.Accepts(r.dw.s, j) {
      SerialiserDone(r.dw);
      BoundaryGrows(Keep(IsText, Chars(r.dw.sent)), r.Words(), [j.word]);
    } else if !n.dw.s.stb {
      SerialiserDone(n.dw);
    }
  }

  /** The hex stage stands still, or has handed on all it took and holds the next character. */
  lemma HexTakes(r: HbGenhex.Run, j: HbGenhex.Input)
    requires HbGenhex.RunInv(r) && !j.reset
    ensures var n := HbGenhex.Step(r, j);
            if HbGenhex.Busy(r.s, j) then n.s == r.s && n.sent == r.sent
            else n.sent == Chars(r.taken) && n.s.stb == j.stb && n.s.byte == GxChar(j.bits)
  {}

  lemma HexStep(r: Run, i: Input)
    requires StagesInv(r) && Atomic(r) && !i.reset
    ensures var n := Step(r, i);
            !n.gx.s.stb || n.gx.s.byte == CR ==> AtBoundary(Keep(IsText, n.gx.sent), r.Words())
  {
    HexTakes(r.gx, GxIn(r.S(), i));
  }

  lemma NewlineStep(r: Run, i: Input)
    requires StagesInv(r) && Atomic(r) && !i.reset
    ensures var n := Step(r, i);
            !n.nl.s.stb || !IsText(n.nl.s.byte) ==> AtBoundary(Keep(IsText, n.nl.sent), r.Words())
  {
    var n, j := Step(r, i), NlIn(r.S(), i);
    StagesStep(r, i);
    if !n.nl.s.stb || !IsText(n.nl.s.byte) {
      KeepAppend(IsText, n.nl.sent, HbNewline.Held(n.nl.s));
      assert Keep(IsText, n.nl.sent) == Keep(IsText, n.nl.taken);
      KeepAppend(IsText, r.nl.sent, HbNewline.Held(r.nl.s));
      KeepAppend(IsText, r.nl.taken, [j.byte]);
      KeepAppend(IsText, r.nl.sent, [r.nl.s.byte]);
      if r.gx.s.stb && !HbNewline.Accepts(r.nl.s, j) {
        assert !IsText(r.nl.s.byte) ==> Keep(IsText, n.nl.sent) == Keep(IsText, r.nl.sent);
      } else {
        assert Keep(IsText, n.nl.sent) == Keep(IsText, r.gx.sent);
      }
    }
  }

  lemma WordsGrow(r: Run, i: Input, x: seq<Byte7>)
    requires AtBoundary(x, r.Words()) && !i.reset
    ensures AtBoundary(x, Step(r, i).Words())
  {
    BoundaryGrows(x, r.Words(), [r.idle.s.word]);
  }

  lemma AtomicAtReset(r: Run)
    requires !r.dw.s.stb && !r.gx.s.stb && !r.nl.s.stb
    requires r.dw.sent == [] && r.gx.sent == [] && r.nl.sent == [] && r.dw.taken == []
    ensures Atomic(r)
  {
    AllIsBoundary([]);
    assert Chars([]) == [] && Text([]) == [];
  }

  lemma AtomicStep(r: Run, i: Input)
    requires StagesInv(r) && Atomic(r)
    ensures Atomic(Step(r, i))
  {
    var n := Step(r, i);
    if i.reset {
      AtomicAtReset(n);
    } else {
      SerialiserStep(r, i);
      HexStep(r, i);
      NewlineStep(r, i);
      if !n.gx.s.stb || n.gx.s.byte == CR {
        WordsGrow(r, i, Keep(IsText, n.gx.sent));
      }
      if !n.nl.s.stb || !IsText(n.nl.s.byte) {
        WordsGrow(r, i, Keep(IsText, n.nl.sent));
      }
    }
  }

  /** Every CR and LF delivered so far came between two words. */
  ghost predicate Unbroken(r: Run) {
    forall k :: 0 <= k < |r.Delivered()| && !IsText(r.Delivered()[k])
      ==> AtBoundary(Keep(IsText, r.Delivered()[..k]), r.Words())
  }

  lemma BreakStep(r: Run, i: Input, k: nat)
    requires Atomic(r) && Unbroken(r) && !i.reset
    requires k < |Step(r, i).Delivered()| && !IsText(Step(r, i).Delivered()[k])
    ensures AtBoundary(Keep(IsText, Step(r, i).Delivered()[..k]), Step(r, i).Words())
  {
    var d := r.Delivered();
    assert Step(r, i).Delivered()[..k] == d[..k];
    if k == |d| {
      assert d[..k] == d;
    }
    WordsGrow(r, i, Keep(IsText, d[..k]));
  }

  lemma UnbrokenStep(r: Run, i: Input)
    requires StagesInv(r) && Atomic(r) && Unbroken(r)
    ensures Unbroken(Step(r, i))
  {
    var n := Step(r, i);
    if !i.reset {
      forall k | 0 <= k < |n.Delivered()| && !IsText(n.Delivered()[k])
        ensures AtBoundary(Keep(IsText, n.Delivered()[..k]), n.Words())
      {
        BreakStep(r, i, k);
      }
    }
  }

  lemma {:induction false} Reachable(s: State, ins: seq<Input>)
    requires Initial(s)
    ensures StagesInv(After(s, ins)) && Atomic(After(s, ins)) && Unbroken(After(s, ins))
  {
    if ins == [] {
      AtomicAtReset(Start(s));
    } else {
      var p, i := After(s, ins[..|ins| - 1]), ins[|ins| - 1];
      Reachable(s, ins[..|ins| - 1]);
      StagesStep(p, i);
      AtomicStep(p, i);
      UnbrokenStep(p, i);
    }
  }

  // The theorems.

  /** Added words apart, the words put on the wire and those still held are the words accepted. */
  lemma WordsConserved(r: Run)
    requires StagesInv(r)
    ensures Keep(IsResponse, r.Words() + r.HeldWords()) == Keep(IsResponse, r.Accepted())
  {
    var h1, h2 := HbInts.Held(r.ints.s), HbIdle.Held(r.idle.s);
    IdleWords(r);
    KeepKeep(HbInts.IsOther, IsResponse, r.ints.sent + h1);
    KeepKeep(HbInts.IsOther, IsResponse, r.ints.taken);
    KeepExchange(IsResponse, r.Words() + h2, r.ints.sent, h1);
    Associate(r.Words(), h2, h1);
  }

  lemma IdleWords(r: Run)
    requires StagesInv(r)
    ensures Keep(IsResponse, r.Words() + HbIdle.Held(r.idle.s)) == Keep(IsResponse, r.ints.sent)
  {
    KeepKeep(HbIdle.IsOther, IsResponse, r.Words() + HbIdle.Held(r.idle.s));
    KeepKeep(HbIdle.IsOther, IsResponse, r.idle.taken);
  }

  /** Line structure apart, the characters delivered and those still held are the text of the words put on the wire. */
  lemma TextConserved(r: Run)
    requires StagesInv(r)
    ensures Keep(IsText, r.Delivered() + r.HeldChars()) == Text(r.Words())
  {
    var n, g, d := HbNewline.Held(r.nl.s), HbGenhex.Held(r.gx.s), Chars(HbDeword.Held(r.dw.s));
    Regroup(r.Delivered(), n, g, d);
    KeepExchange(IsText, r.Delivered() + n, r.gx.sent, g + d);
    SerialisedText(r);
  }

  lemma CharsAppend(a: seq<Bits5>, b: seq<Bits5>)
    ensures Chars(a + b) == Chars(a) + Chars(b)
  {}

  lemma SerialisedText(r: Run)
    requires StagesInv(r)
    ensures r.gx.sent + (HbGenhex.Held(r.gx.s) + Chars(HbDeword.Held(r.dw.s))) == RenderAll(r.Words())
  {
    var d := HbDeword.Held(r.dw.s);
    CharsOfUnits(r.Words());
    CharsAppend(r.dw.sent, d);
    Regroup([], r.gx.sent, HbGenhex.Held(r.gx.s), Chars(d));
  }

  /** The same for payload characters, from the words accepted to the characters delivered. */
  lemma PayloadConserved(r: Run)
    requires StagesInv(r)
    ensures Keep(IsPayload, r.Delivered() + r.HeldChars() + RenderAll(r.HeldWords()))
         == Keep(IsPayload, RenderAll(Keep(IsResponse, r.Accepted())))
  {
    var d, hw := r.Delivered() + r.HeldChars(), r.HeldWords();
    TextConserved(r);
    KeepKeep(IsText, IsPayload, d);
    KeepKeep(IsText, IsPayload, RenderAll(r.Words()));
    KeepAppend(IsPayload, d, RenderAll(hw));
    KeepAppend(IsPayload, RenderAll(r.Words()), RenderAll(hw));
    FlattenAppend(Render, r.Words(), hw);
    PayloadOfResponses(r.Words() + hw);
    WordsConserved(r);
  }

  /**
   * End to end: when only bus responses are offered, what the transmitter took
   * since the last reset, less CR, LF, 'I' and 'Z', is the text of the accepted
   * words short of exactly what the five stages still hold.
   */
  lemma ResponseStream(s: State, ins: seq<Input>)
    requires Initial(s)
    requires forall w <- After(s, ins).Accepted() :: IsBusResponse(w)
    ensures var r := After(s, ins);
            Keep(IsPayload, r.Delivered())
              + (Keep(IsPayload, r.HeldChars()) + RenderAll(Keep(IsResponse, r.HeldWords())))
            == RenderAll(r.Accepted())
  {
    Reachable(s, ins);
    StreamAt(After(s, ins));
  }

  lemma StreamAt(r: Run)
    requires StagesInv(r)
    requires forall w <- r.Accepted() :: IsBusResponse(w)
    ensures Keep(IsPayload, r.Delivered())
              + (Keep(IsPayload, r.HeldChars()) + RenderAll(Keep(IsResponse, r.HeldWords())))
            == RenderAll(r.Accepted())
  {
    PayloadConserved(r);
    BusResponsesArePayload(r.Accepted());
    HeldPayload(r);
    KeepAppend3(IsPayload, r.Delivered(), r.HeldChars(), RenderAll(r.HeldWords()));
  }

  lemma HeldPayload(r: Run)
    requires StagesInv(r)
    requires forall w <- r.Accepted() :: IsBusResponse(w)
    ensures Keep(IsPayload, RenderAll(r.HeldWords())) == RenderAll(Keep(IsResponse, r.HeldWords()))
  {
    PayloadOfResponses(r.HeldWords());
    HeldAreResponses(r);
    BusResponsesArePayload(Keep(IsResponse, r.HeldWords()));
  }

  /** What is held of the accepted words is among the accepted words. */
  lemma HeldAreResponses(r: Run)
    requires StagesInv(r)
    requires forall w <- r.Accepted() :: IsBusResponse(w)
    ensures forall w <- Keep(IsResponse, r.HeldWords()) :: IsBusResponse(w)
  {
    WordsConserved(r);
    KeepAppend(IsResponse, r.Words(), r.HeldWords());
    var all, held := Keep(IsResponse, r.Accepted()), Keep(IsResponse, r.HeldWords());
    KeepWithin(IsResponse, r.Accepted());
    assert all[|Keep(IsResponse, r.Words())|..] == held;
  }

  /**
   * Word atomicity: a CR or LF is only ever delivered when the text before it
   * ends with the last digit of a word.  Interrupt and idle notes are words
   * themselves, so they too stand only between words.
   */
  lemma WordAtomicity(s: State, ins: seq<Input>, k: nat)
    requires Initial(s)
    requires k < |After(s, ins).Delivered()| && !IsText(After(s, ins).Delivered()[k])
    ensures var r := After(s, ins);
            AtBoundary(Keep(IsText, r.Delivered()[..k]), r.Words())
    ensures var r := After(s, ins);
            Keep(IsText, r.Delivered() + r.HeldChars()) == Text(r.Words())
  {
    Reachable(s, ins);
    TextConserved(After(s, ins));
  }

  // Lines and interrupts, when only bus responses are offered.

  predicate Printable(w: Word) { w.kind == SPECIAL ==> Tag5(w.payload) < 28 }

  predicate PlainStages(ints: HbInts.State, idle: HbIdle.State, dw: HbDeword.State, gx: HbGenhex.State) {
    && (ints.stb ==> Printable(ints.word))
    && (idle.stb ==> Printable(idle.word))
    && (dw.stb ==> GxChar(dw.bits) != CR)
    && (gx.stb ==> IsText(gx.byte))
  }

  predicate Plain(r: Run) {
    && PlainStages(r.ints.s, r.idle.s, r.dw.s, r.gx.s)
    && HbNewline.OnLine(r.nl)
    && HbInts.CountInv(r.ints)
  }

  lemma PlainStagesStep(r: Run, i: Input)
    requires StagesInv(r) && Plain(r)
    requires i.stb ==> IsBusResponse(i.word)
    ensures var n := Step(r, i); PlainStages(n.ints.s, n.idle.s, n.dw.s, n.gx.s)
  {}

  lemma PlainStep(r: Run, i: Input)
    requires StagesInv(r) && Plain(r)
    requires i.stb ==> IsBusResponse(i.word)
    ensures Plain(Step(r, i))
  {
    PlainStagesStep(r, i);
    HbNewline.OnLineStep(r.nl, NlIn(r.S(), i));
    HbInts.CountStep(r.ints, IntsIn(r.S(), i));
  }

  lemma {:induction false} StaysPlain(s: State, ins: seq<Input>)
    requires Initial(s)
    requires forall i <- ins :: i.stb ==> IsBusResponse(i.word)
    ensures Plain(After(s, ins))
  {
    if ins != [] {
      StaysPlain(s, ins[..|ins| - 1]);
      Reachable(s, ins[..|ins| - 1]);
      PlainStep(After(s, ins[..|ins| - 1]), ins[|ins| - 1]);
    }
  }

  /** What the transmitter takes is always whole CR LF lines and one open line, none of them blank. */
  lemma DeliveredInLines(s: State, ins: seq<Input>)
    requires Initial(s)
    requires forall i <- ins :: i.stb ==> IsBusResponse(i.word)
    ensures HbNewline.IsLines(After(s, ins).Delivered())
  {
    StaysPlain(s, ins);
    var lines, tail := HbNewline.ScanIsLines(After(s, ins).Delivered());
  }

  /**
   * Every assertion of the interrupt line, counted from its waveform, is one
   * interrupt word on the wire, held in hbidle, or pending.
   */
  lemma InterruptsReported(s: State, ins: seq<Input>)
    requires Initial(s)
    requires forall i <- ins :: i.stb ==> IsBusResponse(i.word)
    ensures AllReported(After(s, ins))
  {
    StaysPlain(s, ins);
    Reachable(s, ins);
    ReportedAt(After(s, ins));
  }

  predicate AllReported(r: Run) {
    |Keep(HbInts.IsInt, r.Words() + HbIdle.Held(r.idle.s))|
      + (if r.ints.s.pending then 1 else 0) == HbInts.Asserted(r.ints.waves)
  }

  lemma ReportedAt(r: Run)
    requires StagesInv(r) && Plain(r)
    ensures AllReported(r)
  {
    KeepKeep(HbIdle.IsOther, HbInts.IsInt, r.Words() + HbIdle.Held(r.idle.s));
    KeepKeep(HbIdle.IsOther, HbInts.IsInt, r.idle.taken);
  }
}
