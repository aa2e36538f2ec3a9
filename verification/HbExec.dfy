/**
 * hbexec: the Wishbone master.  Against any slave that answers each request at
 * most once and not before taking it, with any stalls and delays, the responses
 * and requests are those of the sequential machine.
 */
module HbExec {
  import opened HexWord
  import opened Sequences
  import opened BusMachine

  datatype State = State(
    cyc: bool, stb: bool, we: bool, addr: Word30, data: Word32,
    newaddr: bool, inc: bool, rspStb: bool, rspWord: Word)

  datatype Input = Input(
    reset: bool, cmdStb: bool, cmd: Word, stall: bool, ack: bool, err: bool, rdata: Word32)

  /** At power-up and after every reset; `we`, `addr`, `data` and `inc` keep what they hold. */
  predicate Fresh(s: State) {
    !s.cyc && !s.stb && !s.newaddr && s.rspStb && s.rspWord == RSP_RESET
  }

  function Busy(s: State): bool { s.cyc }

  predicate Accepts(s: State, i: Input) { !i.reset && i.cmdStb && !s.cyc }

  /** The slave takes the request on this clock. */
  predicate Issues(s: State, i: Input) { s.stb && !i.stall }

  predicate Inv(s: State) { (s.stb ==> s.cyc) && (s.newaddr ==> !s.cyc) }

  /** The state after a clock, by phase: idle, else requesting or waiting. */
  function Next(s: State, i: Input): State
    requires Inv(s)
  {
    var n :=
      if !s.cyc then
        var start := i.cmdStb && IsBus(i.cmd);
        var setAddr := i.cmdStb && i.cmd.kind == ADDR;
        State(
          start, start, i.cmdStb && i.cmd.kind == ACK,
          if setAddr then NewAddr(s.addr, i.cmd.payload) else s.addr, i.cmd.payload,
          setAddr, if setAddr then Increments(i.cmd.payload) else s.inc,
          s.newaddr, Echo(s.addr, s.inc))
      else
        var issued := Issues(s, i);
        var waiting := !i.err && !(i.ack && (!s.stb || issued));
        State(
          waiting, waiting && s.stb && !issued, s.we,
          if issued then Advance(s.addr, s.inc) else s.addr,
          if s.stb && i.stall then s.data else i.cmd.payload,
          false, s.inc,
          i.ack, if s.we then RSP_WRITE_ACK else Word(DATA, i.rdata));
    if i.reset then n.(cyc := false, stb := false, newaddr := false, rspStb := true, rspWord := RSP_RESET)
    else if i.err then n.(rspStb := true, rspWord := RSP_BUS_ERROR)
    else n
  }

  lemma InvStep(s: State, i: Input)
    requires Inv(s)
    ensures Inv(Next(s, i))
  {}

  /**
   * A run since the last reset: the registers then as a machine, the commands
   * taken, those completed and the one under way, the requests the slave took
   * and the responses handed on.
   */
  datatype Run = Run(
    s: State, start: Machine, taken: seq<Word>, cmds: seq<Word>, cur: seq<Word>,
    txns: seq<Txn>, rsps: seq<Word>)

  function Start(s: State): Run {
    Run(s, Machine(s.addr, s.inc, [], [RSP_RESET]), [], [], [], [], [])
  }

  /** The request now on the bus. */
  function OnBus(s: State): Txn { Txn(s.we, s.addr, if s.we then s.data else 0) }

  function TxnsAfter(r: Run, i: Input): seq<Txn> {
    if Issues(r.s, i) then r.txns + [OnBus(r.s)] else r.txns
  }

  predicate Answers(s: State, i: Input) { s.cyc && (i.ack || i.err) }

  function Step(r: Run, i: Input): Run
    requires Inv(r.s)
  {
    if i.reset then Start(Next(r.s, i))
    else Run(
      Next(r.s, i),
      r.start,
      if Accepts(r.s, i) then r.taken + [i.cmd] else r.taken,
      if Answers(r.s, i) then r.cmds + r.cur
      else if Accepts(r.s, i) && !IsBus(i.cmd) then r.cmds + [i.cmd] else r.cmds,
      if Answers(r.s, i) then [] else if Accepts(r.s, i) && IsBus(i.cmd) then [i.cmd] else r.cur,
      TxnsAfter(r, i),
      if r.s.rspStb then r.rsps + [r.s.rspWord] else r.rsps)
  }

  /**
   * What a slave may do: answer only a request it has taken or is just taking,
   * not both ways at once, and with the outcome that `dev` gives.  Nothing is
   * asked of stalls and delays, nor of an acknowledgement outside a cycle.
   */
  predicate Legal(r: Run, i: Input, dev: Device) {
    && (i.err ==> r.s.cyc && !i.ack)
    && (Answers(r.s, i) ==> !r.s.stb || !i.stall)
    && (Answers(r.s, i) && i.err ==> dev(TxnsAfter(r, i)) == Failed)
    && (Answers(r.s, i) && i.ack ==>
          var o := dev(TxnsAfter(r, i));
          o.Done? && (!r.s.we ==> o.data == i.rdata))
  }

  /** The responses already decided: handed on, in the output register, and an echo to come. */
  function Decided(r: Run): seq<Word> {
    r.rsps + (if r.s.rspStb then [r.s.rspWord] else [])
           + (if r.s.newaddr then [Echo(r.s.addr, r.s.inc)] else [])
  }

  /** The executor simulates the machine that has done the completed commands. */
  predicate Refines(r: Run, dev: Device) {
    var m := ExecAll(r.start, r.cmds, dev);
    && Inv(r.s)
    && r.taken == r.cmds + r.cur
    && r.s.inc == m.inc
    && Decided(r) == m.rsps
    && (!r.s.cyc ==> r.cur == [] && r.s.addr == m.addr && r.txns == m.txns)
    && (r.s.cyc ==> |r.cur| == 1 && IsBus(r.cur[0]) && r.s.we == (r.cur[0].kind == ACK))
    && (r.s.stb ==> r.s.addr == m.addr && r.txns == m.txns && (r.s.we ==> r.s.data == r.cur[0].payload))
    && (r.s.cyc && !r.s.stb ==>
          r.s.addr == Advance(m.addr, m.inc) && r.txns == m.txns + [Request(m.addr, r.cur[0])])
  }

  lemma DecidedStep(r: Run, i: Input, dev: Device)
    requires Refines(r, dev) && Legal(r, i, dev) && !i.reset
    ensures Answers(r.s, i) ==>
              Decided(Step(r, i)) == Decided(r) + [Response(r.s.we, dev(TxnsAfter(r, i)))]
    ensures !Answers(r.s, i) && Accepts(r.s, i) && i.cmd.kind == ADDR ==>
              Decided(Step(r, i)) ==
                Decided(r) + [Echo(NewAddr(r.s.addr, i.cmd.payload), Increments(i.cmd.payload))]
    ensures !Answers(r.s, i) && !(Accepts(r.s, i) && i.cmd.kind == ADDR) ==>
              Decided(Step(r, i)) == Decided(r)
  {}

  lemma IdleStep(r: Run, i: Input, dev: Device)
    requires Refines(r, dev) && Legal(r, i, dev) && !i.reset && !r.s.cyc
    ensures Refines(Step(r, i), dev)
  {
    DecidedStep(r, i, dev);
    ExecSnoc(r.start, r.cmds, i.cmd, dev);
  }

  lemma BusStep(r: Run, i: Input, dev: Device)
    requires Refines(r, dev) && Legal(r, i, dev) && !i.reset && r.s.cyc
    ensures Refines(Step(r, i), dev)
  {
    DecidedStep(r, i, dev);
    ExecSnoc(r.start, r.cmds, r.cur[0], dev);
    assert r.cur == [r.cur[0]];
    var m := ExecAll(r.start, r.cmds, dev);
    if Issues(r.s, i) {
      assert OnBus(r.s) == Request(m.addr, r.cur[0]);
    }
  }

  lemma RefinesStep(r: Run, i: Input, dev: Device)
    requires Refines(r, dev) && Legal(r, i, dev)
    ensures Refines(Step(r, i), dev)
  {
    if !i.reset {
      if r.s.cyc {
        BusStep(r, i, dev);
      } else {
        IdleStep(r, i, dev);
      }
    }
  }

  function After(s: State, ins: seq<Input>): (r: Run)
    requires Inv(s)
    ensures Inv(r.s)
  {
    if ins == [] then Start(s) else Step(After(s, ins[..|ins| - 1]), ins[|ins| - 1])
  }

  predicate LegalRun(s: State, ins: seq<Input>, dev: Device)
    requires Inv(s)
  {
    ins != [] ==>
      && LegalRun(s, ins[..|ins| - 1], dev)
      && Legal(After(s, ins[..|ins| - 1]), ins[|ins| - 1], dev)
  }

  /**
   * Refinement: since the last reset the commands taken are those completed and
   * at most one under way; the responses handed on or already decided are those
   * of the sequential machine after the completed commands; and the slave has
   * seen that machine's requests, plus the one under way once it took it.
   */
  lemma {:induction false} Refinement(s: State, ins: seq<Input>, dev: Device)
    requires Fresh(s) && LegalRun(s, ins, dev)
    ensures var r := After(s, ins);
            Refines(r, dev) && r.start.txns == [] && r.start.rsps == [RSP_RESET]
    ensures var r := After(s, ins);
            var m := ExecAll(r.start, r.cmds, dev);
            && r.taken == r.cmds + r.cur && |r.cur| <= 1
            && Decided(r) == m.rsps
            && (r.txns == m.txns || (|r.cur| == 1 && r.txns == m.txns + [Request(m.addr, r.cur[0])]))
  {
    if ins != [] {
      Refinement(s, ins[..|ins| - 1], dev);
      RefinesStep(After(s, ins[..|ins| - 1]), ins[|ins| - 1], dev);
    }
  }

  /** What is decided is handed on within two clocks, when nothing else comes in. */
  lemma HandsOnDecided(r: Run, i1: Input, i2: Input)
    requires Inv(r.s) && !r.s.cyc
    requires forall i <- [i1, i2] :: !i.reset && !i.cmdStb && !i.err
    ensures var n := Step(Step(r, i1), i2); n.rsps == Decided(r) && !n.s.rspStb && !n.s.newaddr
  {
    assert i1 in [i1, i2] && i2 in [i1, i2];
  }

  /** Only bus responses are ever handed on. */
  lemma OutputIsBusResponse(s: State, ins: seq<Input>, dev: Device)
    requires Fresh(s) && LegalRun(s, ins, dev)
    ensures var r := After(s, ins);
            r.s.rspStb ==> IsBusResponse(r.s.rspWord)
  {
    var r := After(s, ins);
    Refinement(s, ins, dev);
    ResponsesAreBusResponses(r.start, r.cmds, dev);
    if r.s.rspStb {
      assert r.s.rspWord == Decided(r)[|r.rsps|];
    }
  }

  class Exec {
    var cyc: bool
    var stb: bool
    var we: bool
    var addr: Word30
    var data: Word32
    var newaddr: bool
    var inc: bool
    var rspStb: bool
    var rspWord: Word

    function Regs(): State
      reads this
    {
      State(cyc, stb, we, addr, data, newaddr, inc, rspStb, rspWord)
    }

    constructor ()
      ensures Fresh(Regs()) && Inv(Regs())
    {
      cyc, stb, newaddr := false, false, false;
      rspStb, rspWord := true, RSP_RESET;
      we, addr, data, inc := *, *, *, *;
    }

    /** The always blocks of the bus handshake: CYC and STB. */
    static method Handshake(s: State, i: Input) returns (cyc: bool, stb: bool)
      requires Inv(s)
      ensures cyc == Next(s, i).cyc && stb == Next(s, i).stb
    {
      cyc, stb := s.cyc, s.stb;
      if i.reset || (i.err && s.cyc) {
        cyc, stb := false, false;
      } else if s.stb {
        if !i.stall {
          stb := false;
        }
        if !i.stall && i.ack {
          cyc := false;
        }
      } else if s.cyc {
        if i.ack {
          cyc := false;
        }
      } else if i.cmdStb && IsBus(i.cmd) {
        cyc, stb := true, true;
      }
    }

    /** The always block of the address, its increment flag and `newaddr`. */
    static method Address(s: State, i: Input) returns (addr: Word30, newaddr: bool, inc: bool)
      requires Inv(s)
      ensures addr == Next(s, i).addr && newaddr == Next(s, i).newaddr && inc == Next(s, i).inc
    {
      var cmdAddr := i.cmdStb && i.cmd.kind == ADDR && !s.cyc;
      addr, inc := s.addr, s.inc;
      if cmdAddr {
        addr := NewAddr(s.addr, i.cmd.payload);
        inc := Increments(i.cmd.payload);
      } else if s.stb && !i.stall {
        addr := Advance(s.addr, s.inc);
      }
      newaddr := !i.reset && cmdAddr;
    }

    /** The always block of the response channel. */
    static method Respond(s: State, i: Input) returns (stb: bool, word: Word)
      requires Inv(s)
      ensures stb == Next(s, i).rspStb && word == Next(s, i).rspWord
    {
      if i.reset {
        stb, word := true, RSP_RESET;
      } else if i.err {
        stb, word := true, RSP_BUS_ERROR;
      } else if s.cyc {
        stb := i.ack;
        if s.we {
          word := RSP_WRITE_ACK;
        } else {
          word := Word(DATA, i.rdata);
        }
      } else {
        stb, word := s.newaddr, Echo(s.addr, s.inc);
      }
    }

    /** All next values, from the registers as they stand. */
    static method NextValues(s: State, i: Input) returns (n: State)
      requires Inv(s)
      ensures n == Next(s, i)
    {
      var cyc, stb := Handshake(s, i);
      var addr, newaddr, inc := Address(s, i);
      var rspStb, rspWord := Respond(s, i);
      var we := if !s.cyc then i.cmdStb && i.cmd.kind == ACK else s.we;
      var data := if !s.stb || !i.stall then i.cmd.payload else s.data;
      n := State(cyc, stb, we, addr, data, newaddr, inc, rspStb, rspWord);
    }

    method Step(i: Input)
      requires Inv(Regs())
      modifies this
      ensures Regs() == Next(old(Regs()), i)
    {
      var n := NextValues(Regs(), i);
      cyc, stb, we, addr, data := n.cyc, n.stb, n.we, n.addr, n.data;
      newaddr, inc, rspStb, rspWord := n.newaddr, n.inc, n.rspStb, n.rspWord;
    }
  }
}
