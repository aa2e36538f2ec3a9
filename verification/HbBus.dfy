/**
 * hbbus: received bytes to Wishbone requests, and responses to transmitted
 * bytes.  Wires the command half, the bus executor and the response chain.
 */
module HbBus {
  import opened HexWord
  import opened Sequences
  import opened BusMachine
  import CommandStream
  import HbDechex
  import HbPack
  import HbExec
  import HbInts
  import HbIdle
  import HbDeword
  import HbGenhex
  import HbNewline
  import ResponseChain

  datatype State = State(cmd: CommandStream.State, exec: HbExec.State, chain: ResponseChain.State)

  datatype Input = Input(
    rxStb: bool, rxByte: Byte8,
    stall: bool, ack: bool, err: bool, rdata: Word32,
    interrupt: bool, txBusy: bool)

  function RxIn(i: Input): HbDechex.Input { HbDechex.Input(i.rxStb, i.rxByte) }

  function ExecIn(s: State, i: Input): HbExec.Input {
    HbExec.Input(s.cmd.dh.reset, s.cmd.pk.stb, s.cmd.pk.out, i.stall, i.ack, i.err, i.rdata)
  }

  function ChainIn(s: State, i: Input): ResponseChain.Input {
    ResponseChain.Input(s.cmd.dh.reset, i.interrupt, s.exec.rspStb, s.exec.rspWord, i.txBusy)
  }

  function Next(s: State, i: Input): State
    requires HbExec.Inv(s.exec)
  {
    State(CommandStream.Next(s.cmd, RxIn(i)), HbExec.Next(s.exec, ExecIn(s, i)),
          ResponseChain.Next(s.chain, ChainIn(s, i)))
  }

  predicate Initial(s: State) {
    CommandStream.Initial(s.cmd) && HbExec.Fresh(s.exec) && ResponseChain.Initial(s.chain)
  }

  /**
   * A run since the last reset character took effect.  `missed` records that a
   * command met a busy executor, `overrun` that a response met a full hbints;
   * neither is stalled, so either would be dropped.
   */
  datatype Run = Run(
    cmd: CommandStream.Run, ex: HbExec.Run, ch: ResponseChain.Run, missed: bool, overrun: bool)
  {
    function S(): State { State(cmd.s, ex.s, ch.S()) }
  }

  function Start(s: State): Run {
    Run(CommandStream.Run(s.cmd, [], []), HbExec.Start(s.exec), ResponseChain.Start(s.chain), false, false)
  }

  function Step(r: Run, i: Input): (n: Run)
    requires HbExec.Inv(r.ex.s)
    ensures HbExec.Inv(n.ex.s) && n.S() == Next(r.S(), i)
  {
    var s := r.S();
    var reset := s.cmd.dh.reset;
    var cmd := if reset then r.cmd.(text := [], packed := []) else r.cmd;
    var cmd' := CommandStream.Step(cmd, RxIn(i));
    Run(if reset then cmd'.(packed := []) else cmd',
        HbExec.Step(r.ex, ExecIn(s, i)),
        ResponseChain.Step(r.ch, ChainIn(s, i)),
        !reset && (r.missed || (s.cmd.pk.stb && HbExec.Busy(s.exec))),
        !reset && (r.overrun || (s.exec.rspStb && HbInts.Busy(s.chain.ints))))
  }

  function After(s: State, ins: seq<Input>): (r: Run)
    requires HbExec.Inv(s.exec)
    ensures HbExec.Inv(r.ex.s)
  {
    if ins == [] then Start(s) else Step(After(s, ins[..|ins| - 1]), ins[|ins| - 1])
  }

  /** The requests the slave has taken once this clock is over. */
  function Seen(r: Run, i: Input): seq<Txn> {
    if r.ex.s.stb && !i.stall then r.ex.txns + [HbExec.OnBus(r.ex.s)] else r.ex.txns
  }

  /**
   * What the slave may do on a clock, at the port's pins: answer only a request it
   * has taken or is just taking, not both ways at once, and as `dev` says.
   */
  predicate SlaveIsLegal(r: Run, i: Input, dev: Device) {
    && (i.err ==> r.ex.s.cyc && !i.ack)
    && (r.ex.s.cyc && (i.ack || i.err) ==>
          && (!r.ex.s.stb || !i.stall)
          && match dev(Seen(r, i))
             case Failed => i.err
             case Done(data) => i.ack && (r.ex.s.we || data == i.rdata))
  }

  lemma LegalForExecutor(r: Run, i: Input, dev: Device)
    requires SlaveIsLegal(r, i, dev)
    ensures HbExec.Legal(r.ex, ExecIn(r.S(), i), dev)
  {}

  /** The Wishbone slave is legal throughout and answers as `dev` does. */
  predicate LegalRun(s: State, ins: seq<Input>, dev: Device)
    requires HbExec.Inv(s.exec)
  {
    ins != [] ==>
      var r := After(s, ins[..|ins| - 1]);
      LegalRun(s, ins[..|ins| - 1], dev) && SlaveIsLegal(r, ins[|ins| - 1], dev)
  }

  /** What crosses the port's pins on a clock: a byte received, a character taken by the transmitter. */
  lemma AtThePins(r: Run, i: Input)
    requires HbExec.Inv(r.ex.s) && !r.cmd.s.dh.reset
    ensures var n := Step(r, i);
            && n.cmd.text == r.cmd.text + (if i.rxStb then [HbDechex.Low7(i.rxByte)] else [])
            && n.ch.Delivered() == r.ch.Delivered() + (if r.ch.nl.s.stb && !i.txBusy then [r.ch.nl.s.byte] else [])
            && n.ex.txns == Seen(r, i)
  {}

  ghost predicate Inv(r: Run, dev: Device) {
    && (exists done :: CommandStream.Follows(r.cmd, done))
    && HbExec.Refines(r.ex, dev)
    && r.ex.start.txns == [] && r.ex.start.rsps == [RSP_RESET]
    && ResponseChain.StagesInv(r.ch) && ResponseChain.Atomic(r.ch) && ResponseChain.Unbroken(r.ch)
    && ResponseChain.Plain(r.ch)
    && (forall w <- r.ch.Accepted() :: IsBusResponse(w))
    && Links(r)
  }

  /** What one part hands on is what the next takes, unless something was dropped, and then there is less of it. */
  predicate Links(r: Run) {
    && (if r.missed then |r.ex.taken| < |r.cmd.packed| else r.ex.taken == r.cmd.packed)
    && (if r.overrun then |RenderAll(r.ch.Accepted())| < |RenderAll(r.ex.rsps)| else r.ch.Accepted() == r.ex.rsps)
  }

  lemma CommandStep(r: Run, i: Input)
    requires HbExec.Inv(r.ex.s) && exists done :: CommandStream.Follows(r.cmd, done)
    ensures exists done :: CommandStream.Follows(Step(r, i).cmd, done)
  {
    var done :| CommandStream.Follows(r.cmd, done);
    if r.cmd.s.dh.reset {
      CommandStream.TakeSnoc(CommandStream.NONE, [], HbDechex.Low7(i.rxByte));
      assert CommandStream.Follows(Step(r, i).cmd, []);
    } else {
      var done' := CommandStream.FollowsStep(r.cmd, RxIn(i), done);
      assert CommandStream.Follows(Step(r, i).cmd, done');
    }
  }

  lemma OutputIsBusResponse(r: Run, dev: Device)
    requires HbExec.Refines(r.ex, dev) && r.ex.start.rsps == [RSP_RESET]
    ensures r.ex.s.rspStb ==> IsBusResponse(r.ex.s.rspWord)
  {
    ResponsesAreBusResponses(r.ex.start, r.ex.cmds, dev);
    if r.ex.s.rspStb {
      assert r.ex.s.rspWord == HbExec.Decided(r.ex)[|r.ex.rsps|];
    }
  }

  lemma AcceptedStep(r: Run, i: Input, dev: Device)
    requires Inv(r, dev)
    ensures forall w <- Step(r, i).ch.Accepted() :: IsBusResponse(w)
  {
    OutputIsBusResponse(r, dev);
    if !r.cmd.s.dh.reset {
      HandsOn(r, i);
    }
  }

  lemma ChainStep(r: Run, i: Input, dev: Device)
    requires Inv(r, dev)
    ensures var ch := Step(r, i).ch;
            && ResponseChain.StagesInv(ch) && ResponseChain.Atomic(ch) && ResponseChain.Unbroken(ch)
            && ResponseChain.Plain(ch)
            && forall w <- ch.Accepted() :: IsBusResponse(w)
  {
    var j := ChainIn(r.S(), i);
    OutputIsBusResponse(r, dev);
    AcceptedStep(r, i, dev);
    assert Step(r, i).ch == ResponseChain.Step(r.ch, j);
    ResponseChain.StagesStep(r.ch, j);
    ResponseChain.AtomicStep(r.ch, j);
    ResponseChain.UnbrokenStep(r.ch, j);
    ResponseChain.PlainStep(r.ch, j);
  }

  lemma RenderGrows(ws: seq<Word>, w: Word)
    ensures |RenderAll(ws + [w])| == |RenderAll(ws)| + |Render(w)| && |Render(w)| > 0
  {
    FlattenSnoc(Render, ws, w);
  }

  /** What each part hands on and takes in a clock. */
  lemma HandsOn(r: Run, i: Input)
    requires HbExec.Inv(r.ex.s) && !r.cmd.s.dh.reset
    ensures var n := Step(r, i);
            && n.cmd.packed == r.cmd.packed + (if r.cmd.s.pk.stb then [r.cmd.s.pk.out] else [])
            && n.ex.taken == r.ex.taken + (if r.cmd.s.pk.stb && !r.ex.s.cyc then [r.cmd.s.pk.out] else [])
            && n.ex.rsps == r.ex.rsps + (if r.ex.s.rspStb then [r.ex.s.rspWord] else [])
            && n.ch.Accepted() == r.ch.Accepted()
                 + (if r.ex.s.rspStb && !HbInts.Busy(r.ch.ints.s) then [r.ex.s.rspWord] else [])
            && n.missed == (r.missed || (r.cmd.s.pk.stb && r.ex.s.cyc))
            && n.overrun == (r.overrun || (r.ex.s.rspStb && HbInts.Busy(r.ch.ints.s)))
  {}

  /** Commands and responses pass from part to part as they are, or are dropped and missed. */
  lemma LinksStep(r: Run, i: Input)
    requires HbExec.Inv(r.ex.s) && Links(r)
    ensures Links(Step(r, i))
  {
    if !r.cmd.s.dh.reset {
      HandsOn(r, i);
      RenderGrows(r.ex.rsps, r.ex.s.rspWord);
      RenderGrows(r.ch.Accepted(), r.ex.s.rspWord);
    }
  }

  lemma StartsAfresh(r: Run, i: Input, dev: Device)
    requires Inv(r, dev)
    ensures var n := Step(r, i); n.ex.start.txns == [] && n.ex.start.rsps == [RSP_RESET]
  {}

  lemma InvStep(r: Run, i: Input, dev: Device)
    requires Inv(r, dev) && SlaveIsLegal(r, i, dev)
    ensures Inv(Step(r, i), dev)
  {
    LegalForExecutor(r, i, dev);
    LinksStep(r, i);
    StartsAfresh(r, i, dev);
    CommandStep(r, i);
    HbExec.RefinesStep(r.ex, ExecIn(r.S(), i), dev);
    ChainStep(r, i, dev);
  }

  lemma InitialInv(s: State, dev: Device)
    requires Initial(s)
    ensures Inv(Start(s), dev)
  {
    assert CommandStream.Follows(Start(s).cmd, []);
    ResponseChain.AtomicAtReset(Start(s).ch);
  }

  lemma {:induction false} Reachable(s: State, ins: seq<Input>, dev: Device)
    requires Initial(s) && HbExec.Inv(s.exec) && LegalRun(s, ins, dev)
    ensures Inv(After(s, ins), dev)
  {
    if ins == [] {
      InitialInv(s, dev);
    } else {
      Reachable(s, ins[..|ins| - 1], dev);
      InvStep(After(s, ins[..|ins| - 1]), ins[|ins| - 1], dev);
    }
  }

  /** The commands the executor has taken, with the one in the output register of hbpack. */
  function Commands(r: Run): seq<Word> {
    r.ex.cmds + r.ex.cur + if r.cmd.s.pk.stb then [r.cmd.s.pk.out] else []
  }

  /** The text of the responses the chain holds. */
  function Undelivered(r: Run): seq<Byte7> {
    Keep(IsPayload, r.ch.HeldChars()) + RenderAll(Keep(IsResponse, r.ch.HeldWords()))
  }

  /**
   * Commands in.  Since the last reset character the commands taken are those the
   * parser finds in the received text, short of its last character while that is
   * in hbdechex, if and only if no command met a busy executor.
   */
  lemma CommandsTaken(s: State, ins: seq<Input>, dev: Device) returns (done: seq<Byte7>)
    requires Initial(s) && HbExec.Inv(s.exec) && LegalRun(s, ins, dev)
    ensures var r := After(s, ins);
            && CommandStream.Follows(r.cmd, done)
            && (Commands(r) == CommandStream.Parse(done).words <==> !r.missed)
  {
    Reachable(s, ins, dev);
    var r := After(s, ins);
    done :| CommandStream.Follows(r.cmd, done);
    CommandsOf(r, done, dev);
  }

  lemma CommandsOf(r: Run, done: seq<Byte7>, dev: Device)
    requires Inv(r, dev) && CommandStream.Follows(r.cmd, done)
    ensures Commands(r) == CommandStream.Parse(done).words <==> !r.missed
  {
    var last := if r.cmd.s.pk.stb then [r.cmd.s.pk.out] else [];
    assert Commands(r) == r.ex.taken + last && CommandStream.Parse(done).words == r.cmd.packed + last;
  }

  /** The text delivered, held and still to be handed on is that of all the responses decided. */
  predicate AllAccountedFor(r: Run) {
    var decided := HbExec.Decided(r.ex);
    Keep(IsPayload, r.ch.Delivered()) + Undelivered(r) + RenderAll(decided[|r.ex.rsps|..]) == RenderAll(decided)
  }

  /**
   * Responses out.  Since the last reset character, what the transmitter took,
   * less line structure, interrupt and idle notes, is the text of the sequential
   * machine's responses to the completed commands, short of what the chain holds
   * and what the executor has decided but not handed on, if and only if no response
   * met a full hbints.
   */
  lemma ResponsesDelivered(s: State, ins: seq<Input>, dev: Device)
    requires Initial(s) && HbExec.Inv(s.exec) && LegalRun(s, ins, dev)
    ensures var r := After(s, ins);
            && HbExec.Decided(r.ex) == ExecAll(r.ex.start, r.ex.cmds, dev).rsps
            && (AllAccountedFor(r) <==> !r.overrun)
  {
    Reachable(s, ins, dev);
    DeliveredAt(After(s, ins), dev);
  }

  lemma DeliveredAt(r: Run, dev: Device)
    requires Inv(r, dev)
    ensures AllAccountedFor(r) <==> !r.overrun
  {
    var decided := HbExec.Decided(r.ex);
    var shown := Keep(IsPayload, r.ch.Delivered()) + Undelivered(r);
    ResponseChain.StreamAt(r.ch);
    assert shown == RenderAll(r.ch.Accepted());
    RenderedSplits(r.ex.rsps, decided);
  }

  lemma RenderedSplits(sent: seq<Word>, all: seq<Word>)
    requires sent <= all
    ensures RenderAll(sent) + RenderAll(all[|sent|..]) == RenderAll(all)
  {
    assert all == sent + all[|sent|..];
    FlattenAppend(Render, sent, all[|sent|..]);
  }

  // Interrupts.

  /** The levels of the interrupt line since the last reset character took effect. */
  function Levels(s: State, ins: seq<Input>): seq<bool>
    requires HbExec.Inv(s.exec)
  {
    if ins == [] || After(s, ins[..|ins| - 1]).cmd.s.dh.reset then []
    else Levels(s, ins[..|ins| - 1]) + [ins[|ins| - 1].interrupt]
  }

  lemma WireStep(r: Run, i: Input)
    requires HbExec.Inv(r.ex.s)
    ensures HbInts.Lines(Step(r, i).ch.ints.waves)
         == if r.cmd.s.dh.reset then [] else HbInts.Lines(r.ch.ints.waves) + [i.interrupt]
  {}

  lemma {:induction false} InterruptWire(s: State, ins: seq<Input>)
    requires HbExec.Inv(s.exec)
    ensures HbInts.Lines(After(s, ins).ch.ints.waves) == Levels(s, ins)
  {
    if ins != [] {
      InterruptWire(s, ins[..|ins| - 1]);
      WireStep(After(s, ins[..|ins| - 1]), ins[|ins| - 1]);
    }
  }

  /** The assertions of the port's interrupt line are the interrupt words on the wire, held in hbidle, or pending. */
  lemma InterruptsThroughPort(s: State, ins: seq<Input>, dev: Device)
    requires Initial(s) && HbExec.Inv(s.exec) && LegalRun(s, ins, dev)
    ensures var r := After(s, ins);
            ResponseChain.AllReported(r.ch) && HbInts.Lines(r.ch.ints.waves) == Levels(s, ins)
  {
    Reachable(s, ins, dev);
    ResponseChain.ReportedAt(After(s, ins).ch);
    InterruptWire(s, ins);
  }

  class Bus {
    const dechex: HbDechex.Dechex
    const pack: HbPack.Pack
    const exec: HbExec.Exec
    const ints: HbInts.Ints
    const idle: HbIdle.Idle
    const dw: HbDeword.Deword
    const gx: HbGenhex.Genhex
    const nl: HbNewline.Newline

    function Regs(): State
      reads dechex, pack, exec, ints, idle, dw, gx, nl
    {
      State(FrontRegs().0, FrontRegs().1, ChainRegs())
    }

    constructor ()
      ensures Initial(Regs()) && HbExec.Inv(Regs().exec)
      ensures fresh({dechex, pack, exec, ints, idle, dw, gx, nl})
    {
      dechex := new HbDechex.Dechex();
      pack := new HbPack.Pack();
      exec := new HbExec.Exec();
      ints := new HbInts.Ints();
      idle := new HbIdle.Idle(HbIdle.HARDWARE_PERIOD);
      dw := new HbDeword.Deword();
      gx := new HbGenhex.Genhex();
      nl := new HbNewline.Newline();
    }

    function FrontRegs(): (CommandStream.State, HbExec.State)
      reads dechex, pack, exec
    {
      (CommandStream.State(dechex.Regs(), pack.Regs()), exec.Regs())
    }

    function ChainRegs(): ResponseChain.State
      reads ints, idle, dw, gx, nl
    {
      ResponseChain.State(ints.Regs(), idle.Regs(), dw.Regs(), gx.Regs(), nl.Regs())
    }

    method StepFront(rx: HbDechex.Input, j: HbExec.Input)
      requires HbExec.Inv(exec.Regs())
      modifies dechex, pack, exec
      ensures FrontRegs() == (CommandStream.Next(old(FrontRegs().0), rx), HbExec.Next(old(exec.Regs()), j))
    {
      var packIn := HbPack.Input(dechex.reset, dechex.stb, dechex.bits);
      dechex.Step(rx);
      pack.Step(packIn);
      exec.Step(j);
    }

    /** The wires between the stages of the response chain, as they stand. */
    static method Wires(s: ResponseChain.State, j: ResponseChain.Input)
      returns (intsIn: HbInts.Input, idleIn: HbIdle.Input, dwIn: HbDeword.Input,
               gxIn: HbGenhex.Input, nlIn: HbNewline.Input)
      ensures intsIn == ResponseChain.IntsIn(s, j) && idleIn == ResponseChain.IdleIn(s, j)
      ensures dwIn == ResponseChain.DwIn(s, j) && gxIn == ResponseChain.GxIn(s, j) && nlIn == ResponseChain.NlIn(s, j)
    {
      nlIn := HbNewline.Input(j.reset, s.gx.stb, s.gx.byte, j.txBusy);
      var nlBusy := HbNewline.Busy(s.nl, nlIn);
      gxIn := HbGenhex.Input(j.reset, s.dw.stb, s.dw.bits, nlBusy);
      dwIn := HbDeword.Input(j.reset, s.idle.stb, s.idle.word, s.gx.stb && nlBusy);
      idleIn := HbIdle.Input(j.reset, s.ints.stb, s.ints.word, s.dw.stb);
      intsIn := HbInts.Input(j.reset, j.interrupt, j.stb, j.word, s.idle.stb && s.dw.stb);
    }

    method StepChain(j: ResponseChain.Input)
      modifies ints, idle, dw, gx, nl
      ensures ChainRegs() == ResponseChain.Next(old(ChainRegs()), j)
    {
      var intsIn, idleIn, dwIn, gxIn, nlIn := Wires(ChainRegs(), j);
      StepWords(intsIn, idleIn);
      StepChars(dwIn, gxIn, nlIn);
    }

    method StepWords(intsIn: HbInts.Input, idleIn: HbIdle.Input)
      modifies ints, idle
      ensures ints.Regs() == HbInts.Next(old(ints.Regs()), intsIn)
      ensures idle.Regs() == HbIdle.Next(old(idle.Regs()), idleIn)
    {
      ints.Step(intsIn);
      idle.Step(idleIn);
    }

    method StepChars(dwIn: HbDeword.Input, gxIn: HbGenhex.Input, nlIn: HbNewline.Input)
      modifies dw, gx, nl
      ensures dw.Regs() == HbDeword.Next(old(dw.Regs()), dwIn)
      ensures gx.Regs() == HbGenhex.Next(old(gx.Regs()), gxIn)
      ensures nl.Regs() == HbNewline.Next(old(nl.Regs()), nlIn)
    {
      dw.Step(dwIn);
      gx.Step(gxIn);
      nl.Step(nlIn);
    }

    /** One clock: every stage steps on the wires as they stood before it. */
    method Step(i: Input)
      requires HbExec.Inv(exec.Regs())
      modifies dechex, pack, exec, ints, idle, dw, gx, nl
      ensures Regs() == Next(old(Regs()), i)
    {
      var execIn := HbExec.Input(dechex.reset, pack.stb, pack.out, i.stall, i.ack, i.err, i.rdata);
      var chainIn := ResponseChain.Input(dechex.reset, i.interrupt, exec.rspStb, exec.rspWord, i.txBusy);
      StepFront(HbDechex.Input(i.rxStb, i.rxByte), execIn);
      StepChain(chainIn);
    }
  }
}
