/**
 * hbconsole: the bus channel and the console channel share one transmitter
 * through a one-byte register.  The top bit of a byte tells the channels apart.
 */
module HbConsole {
  import opened HexWord
  import opened Sequences
  import ResponseChain
  import HbNewline

  /** `ps_full` and `ps_data`. */
  datatype State = State(full: bool, data: Byte8)

  /** What hbnewline presents, what the console offers, and the transmitter. */
  datatype Input = Input(nlStb: bool, nlByte: Byte7, conStb: bool, conByte: Byte7, txBusy: bool)

  function FromBus(b: Byte7): Byte8 { b + 128 }

  function FromConsole(b: Byte7): Byte8 { b }

  predicate IsBus(b: Byte8) { b >= 128 }

  predicate IsConsole(b: Byte8) { b < 128 }

  /** The stall that hbnewline sees. */
  predicate NlBusy(s: State, i: Input) { i.txBusy && s.full }

  predicate ConsoleBusy(s: State, i: Input) { i.nlStb || s.full }

  predicate TakesBus(s: State, i: Input) { i.nlStb && !NlBusy(s, i) }

  predicate TakesConsole(s: State, i: Input) { i.conStb && !ConsoleBusy(s, i) }

  predicate Sends(s: State, i: Input) { s.full && !i.txBusy }

  function Next(s: State, i: Input): State {
    if !s.full then
      if i.nlStb then State(true, FromBus(i.nlByte))
      else if i.conStb then State(true, FromConsole(i.conByte))
      else s
    else if !i.txBusy then State(i.nlStb, FromBus(i.nlByte))
    else s
  }

  function Held(s: State): seq<Byte8> { if s.full then [s.data] else [] }

  /** The bytes each channel has handed over, and those the transmitter has taken. */
  datatype Run = Run(s: State, bus: seq<Byte7>, console: seq<Byte7>, sent: seq<Byte8>)

  function Step(r: Run, i: Input): Run {
    Run(Next(r.s, i),
        if TakesBus(r.s, i) then r.bus + [i.nlByte] else r.bus,
        if TakesConsole(r.s, i) then r.console + [i.conByte] else r.console,
        if Sends(r.s, i) then r.sent + [r.s.data] else r.sent)
  }

  function After(s: State, ins: seq<Input>): Run {
    if ins == [] then Run(s, [], [], []) else Step(After(s, ins[..|ins| - 1]), ins[|ins| - 1])
  }

  function Tag(f: Byte7 -> Byte8, bytes: seq<Byte7>): seq<Byte8> {
    seq(|bytes|, i requires 0 <= i < |bytes| => f(bytes[i]))
  }

  /** The two channels, split again by their top bit, are what went in. */
  predicate Split(r: Run) {
    && Keep(IsBus, r.sent + Held(r.s)) == Tag(FromBus, r.bus)
    && Keep(IsConsole, r.sent + Held(r.s)) == Tag(FromConsole, r.console)
  }

  lemma TagSnoc(f: Byte7 -> Byte8, bytes: seq<Byte7>, b: Byte7)
    ensures Tag(f, bytes + [b]) == Tag(f, bytes) + [f(b)]
  {}

  /** A byte comes into the register only as the one before it goes out. */
  lemma FlowStep(r: Run, i: Input)
    ensures var n := Step(r, i);
            n.sent + Held(n.s) == (r.sent + Held(r.s))
              + (if TakesBus(r.s, i) then [FromBus(i.nlByte)]
                 else if TakesConsole(r.s, i) then [FromConsole(i.conByte)] else [])
  {}

  lemma SplitStep(r: Run, i: Input)
    requires Split(r)
    ensures Split(Step(r, i))
  {
    FlowStep(r, i);
    TagSnoc(FromBus, r.bus, i.nlByte);
    TagSnoc(FromConsole, r.console, i.conByte);
    var flow := r.sent + Held(r.s);
    KeepAppend(IsBus, flow, [FromBus(i.nlByte)]);
    KeepAppend(IsConsole, flow, [FromBus(i.nlByte)]);
    KeepAppend(IsBus, flow, [FromConsole(i.conByte)]);
    KeepAppend(IsConsole, flow, [FromConsole(i.conByte)]);
    assert flow + [] == flow;
  }

  /**
   * Two-channel merge: the bytes sent, with the one held, split by their top bit
   * into exactly the bytes each channel handed over, in order.
   */
  lemma {:induction false} ChannelsKept(s: State, ins: seq<Input>)
    requires !s.full
    ensures Split(After(s, ins))
  {
    if ins != [] {
      ChannelsKept(s, ins[..|ins| - 1]);
      SplitStep(After(s, ins[..|ins| - 1]), ins[|ins| - 1]);
    }
  }

  // With the response chain in front of it.

  datatype BusInput = BusInput(
    interrupt: bool, stb: bool, word: Word, conStb: bool, conByte: Byte7, txBusy: bool)

  function ChainIn(s: State, i: BusInput): ResponseChain.Input {
    ResponseChain.Input(false, i.interrupt, i.stb, i.word, i.txBusy && s.full)
  }

  function MergeIn(nl: HbNewline.State, i: BusInput): Input {
    Input(nl.stb, nl.byte, i.conStb, i.conByte, i.txBusy)
  }

  datatype Both = Both(chain: ResponseChain.Run, merge: Run)

  function StepBoth(b: Both, i: BusInput): Both {
    Both(ResponseChain.Step(b.chain, ChainIn(b.merge.s, i)), Step(b.merge, MergeIn(b.chain.nl.s, i)))
  }

  function AfterBoth(c: ResponseChain.State, s: State, ins: seq<BusInput>): Both {
    if ins == [] then Both(ResponseChain.Start(c), Run(s, [], [], []))
    else StepBoth(AfterBoth(c, s, ins[..|ins| - 1]), ins[|ins| - 1])
  }

  /** The chain's inputs in such a run. */
  function ChainIns(c: ResponseChain.State, s: State, ins: seq<BusInput>): seq<ResponseChain.Input> {
    if ins == [] then []
    else
      var init := ins[..|ins| - 1];
      ChainIns(c, s, init) + [ChainIn(AfterBoth(c, s, init).merge.s, ins[|ins| - 1])]
  }

  /** The chain in front of the merge runs as it does alone, and the merge takes exactly what it delivers. */
  lemma {:induction false} ChainFeedsMerge(c: ResponseChain.State, s: State, ins: seq<BusInput>)
    requires !s.full
    ensures var b := AfterBoth(c, s, ins);
            && b.chain == ResponseChain.After(c, ChainIns(c, s, ins))
            && b.merge.bus == b.chain.Delivered() && Split(b.merge)
  {
    if ins != [] {
      var init, i := ins[..|ins| - 1], ins[|ins| - 1];
      ChainFeedsMerge(c, s, init);
      var b := AfterBoth(c, s, init);
      SplitStep(b.merge, MergeIn(b.chain.nl.s, i));
      assert (ChainIns(c, s, init) + [ChainIn(b.merge.s, i)])[..|ChainIns(c, s, init)|] == ChainIns(c, s, init);
    }
  }

  /** The bus goes first: a byte it offers is taken on this clock or, once the transmitter is free, the next. */
  lemma BusServed(s: State, i1: Input, i2: Input)
    requires i1.nlStb && i2.nlStb && !i2.txBusy
    ensures !TakesConsole(s, i1) && !TakesConsole(Next(s, i1), i2) && TakesBus(Next(s, i1), i2)
  {}

  /** The console is served once the bus is silent for two clocks and the transmitter is free. */
  lemma ConsoleServed(s: State, i1: Input, i2: Input)
    requires !i1.nlStb && !i1.txBusy && i1.conStb && !i2.nlStb && i2.conStb
    ensures TakesConsole(s, i1) || TakesConsole(Next(s, i1), i2)
  {}

  class Arbiter {
    var psFull: bool
    var psData: Byte8

    constructor ()
      ensures !psFull
    {
      psFull := false;
    }

    function Registers(): State
      reads this
    {
      State(psFull, psData)
    }

    method Step(i: Input)
      modifies this
      ensures Registers() == Next(old(Registers()), i)
    {
      if !psFull {
        if i.nlStb {
          psFull, psData := true, i.nlByte + 128;
        } else if i.conStb {
          psFull, psData := true, i.conByte;
        }
      } else if !i.txBusy {
        psFull, psData := i.nlStb, i.nlByte + 128;
      }
    }
  }
}
