/**
 * hbexecaxi: the AXI4-Lite master.  With write address and write data taken in
 * either order and any number of clocks apart, it has at most one transaction
 * outstanding and implements the sequential machine that puts off address
 * echoes.
 */
module HbExecAxi {
  import opened HexWord
  import opened Sequences
  import opened BusMachine

  /** `addr` drives both address channels; its two low bits are always zero and left out. */
  datatype State = State(
    awvalid: bool, wvalid: bool, bready: bool, arvalid: bool, rready: bool,
    addr: Word30, newaddr: bool, inc: bool, wdata: Word32, rspStb: bool, rspWord: Word)

  /** `berr` and `rerr` are bit 1 of the slave's response codes. */
  datatype Input = Input(
    reset: bool, cmdStb: bool, cmd: Word,
    awready: bool, wready: bool, bvalid: bool, berr: bool,
    arready: bool, rvalid: bool, rerr: bool, rdata: Word32)

  function Busy(s: State): bool { s.bready || s.rready }

  predicate Accepts(s: State, i: Input) { !i.reset && i.cmdStb && !Busy(s) }

  // The response word is an OR of up to three sources.

  const NOTHING := Word(0, 0)

  /** Bitwise OR, with the zero word as its neutral element spelled out. */
  function OrWord(a: Word, b: Word): Word {
    if a == NOTHING then b else if b == NOTHING then a
    else Word(((a.kind as bv2) | (b.kind as bv2)) as int, ((a.payload as bv32) | (b.payload as bv32)) as int)
  }

  function WriteResult(i: Input): Word {
    if !i.bvalid then NOTHING else if i.berr then RSP_BUS_ERROR else RSP_WRITE_ACK
  }

  function ReadResult(i: Input): Word {
    if !i.rvalid then NOTHING else if i.rerr then RSP_BUS_ERROR else Word(DATA, i.rdata)
  }

  function AddressEcho(s: State): Word {
    if s.newaddr then Echo(s.addr, s.inc) else NOTHING
  }

  function RspWord(s: State, i: Input): Word {
    OrWord(OrWord(WriteResult(i), ReadResult(i)), AddressEcho(s))
  }

  /** At power-up and after every reset; `addr`, `inc` and `wdata` keep what they hold. */
  predicate Fresh(s: State) {
    && !s.awvalid && !s.wvalid && !s.bready && !s.arvalid && !s.rready
    && s.newaddr && s.rspStb && s.rspWord == RSP_RESET
  }

  predicate Inv(s: State) {
    && !(s.bready && s.rready)
    && (s.awvalid || s.wvalid ==> s.bready)
    && (s.arvalid ==> s.rready)
    && (s.newaddr ==> !Busy(s))
  }

  /** A write address or a read address is taken on this clock. */
  predicate TakesAddress(s: State, i: Input) {
    (s.awvalid && i.awready) || (s.arvalid && i.arready)
  }

  function Next(s: State, i: Input): State {
    var read := !Busy(s) && i.cmdStb && i.cmd.kind == DATA;
    var write := !Busy(s) && i.cmdStb && i.cmd.kind == ACK;
    var setAddr := !Busy(s) && i.cmdStb && i.cmd.kind == ADDR;
    State(
      !i.reset && (if s.bready then s.awvalid && !i.awready else write || s.awvalid),
      !i.reset && (if s.bready then s.wvalid && !i.wready else write || s.wvalid),
      !i.reset && (if s.bready then !i.bvalid else write),
      !i.reset && (if s.rready then s.arvalid && !i.arready else read || s.arvalid),
      !i.reset && (if s.rready then !i.rvalid else read),
      if setAddr then NewAddr(s.addr, i.cmd.payload)
      else if TakesAddress(s, i) then Advance(s.addr, s.inc) else s.addr,
      i.reset || setAddr || (s.newaddr && !read && !write),
      if setAddr then Increments(i.cmd.payload) else s.inc,
      if s.bready then s.wdata else i.cmd.payload,
      i.reset || i.bvalid || i.rvalid || (s.newaddr && (read || write)),
      if i.reset then RSP_RESET else RspWord(s, i))
  }

  /**
   * A run since the last reset.  `aw` and `w` are the write address and data the
   * slave has taken and not yet paired; a request is whole once both are there.
   * `bs` and `rs` count the write and read answers that the master has taken.
   */
  datatype Run = Run(
    s: State, start: Lazy, taken: seq<Word>, cmds: seq<Word>, cur: seq<Word>,
    aw: seq<Word30>, w: seq<Word32>, txns: seq<Txn>, bs: nat, rs: nat, rsps: seq<Word>)

  function Start(s: State): Run {
    Run(s, Lazy(Machine(s.addr, s.inc, [], [RSP_RESET]), true), [], [], [], [], [], [], 0, 0, [])
  }

  function AwAfter(r: Run, i: Input): seq<Word30> {
    if r.s.awvalid && i.awready then r.aw + [r.s.addr] else r.aw
  }

  function WAfter(r: Run, i: Input): seq<Word32> {
    if r.s.wvalid && i.wready then r.w + [r.s.wdata] else r.w
  }

  predicate Paired(r: Run, i: Input) { AwAfter(r, i) != [] && WAfter(r, i) != [] }

  function TxnsAfter(r: Run, i: Input): seq<Txn> {
    if Paired(r, i) then r.txns + [Txn(true, AwAfter(r, i)[0], WAfter(r, i)[0])]
    else if r.s.arvalid && i.arready then r.txns + [Txn(false, r.s.addr, 0)]
    else r.txns
  }

  predicate Answers(i: Input) { i.bvalid || i.rvalid }

  function Step(r: Run, i: Input): Run {
    if i.reset then Start(Next(r.s, i))
    else Run(
      Next(r.s, i),
      r.start,
      if Accepts(r.s, i) then r.taken + [i.cmd] else r.taken,
      if Answers(i) then r.cmds + r.cur
      else if Accepts(r.s, i) && !IsBus(i.cmd) then r.cmds + [i.cmd] else r.cmds,
      if Answers(i) then [] else if Accepts(r.s, i) && IsBus(i.cmd) then [i.cmd] else r.cur,
      if Paired(r, i) then AwAfter(r, i)[1..] else AwAfter(r, i),
      if Paired(r, i) then WAfter(r, i)[1..] else WAfter(r, i),
      TxnsAfter(r, i),
      if i.bvalid && r.s.bready then r.bs + 1 else r.bs,
      if i.rvalid && r.s.rready then r.rs + 1 else r.rs,
      if r.s.rspStb then r.rsps + [r.s.rspWord] else r.rsps)
  }

  predicate IsWrite(t: Txn) { t.write }

  predicate IsRead(t: Txn) { !t.write }

  /**
   * A slave offers a write answer only while it has taken more writes than it has
   * answered, a read answer likewise, and each with the outcome that `dev` gives.
   * It goes by its own counts and knows nothing of the master's registers.
   */
  predicate Legal(r: Run, i: Input, dev: Device) {
    && (i.bvalid ==> r.bs < |Keep(IsWrite, r.txns)| && dev(r.txns).Failed? == i.berr)
    && (i.rvalid ==>
          && r.rs < |Keep(IsRead, r.txns)|
          && dev(r.txns).Failed? == i.rerr
          && (!i.rerr ==> dev(r.txns) == Done(i.rdata)))
  }

  /** The slave owes a write answer exactly while the master waits for nothing else, and a read answer likewise. */
  predicate Balanced(r: Run) {
    && |Keep(IsWrite, r.txns)| == r.bs + (if r.s.bready && !r.s.awvalid && !r.s.wvalid then 1 else 0)
    && |Keep(IsRead, r.txns)| == r.rs + (if r.s.rready && !r.s.arvalid then 1 else 0)
  }

  /** Answers come only when the master waits for them, with the outcome that `dev` gives. */
  predicate Expected(r: Run, i: Input, dev: Device) {
    && (i.bvalid ==>
          && r.s.bready && !r.s.awvalid && !r.s.wvalid
          && dev(r.txns).Failed? == i.berr)
    && (i.rvalid ==>
          && r.s.rready && !r.s.arvalid
          && dev(r.txns).Failed? == i.rerr
          && (!i.rerr ==> dev(r.txns) == Done(i.rdata)))
  }

  /** The slave's counts tell it all it needs to know of the master. */
  lemma LegalIsExpected(r: Run, i: Input, dev: Device)
    requires Balanced(r) && Legal(r, i, dev)
    ensures Expected(r, i, dev)
  {}

  /** Of the sources of a response word only one is there, if answers come when they are waited for. */
  lemma OneSourceNow(s: State, i: Input)
    requires Inv(s)
    requires (i.bvalid ==> s.bready) && (i.rvalid ==> s.rready)
    ensures !(i.bvalid && i.rvalid) && !(s.newaddr && (i.bvalid || i.rvalid))
    ensures RspWord(s, i) ==
            if i.bvalid then WriteResult(i) else if i.rvalid then ReadResult(i) else AddressEcho(s)
  {}

  /** What is offered to the slave stays offered, unchanged, until it is taken. */
  lemma OffersAreStable(s: State, i: Input)
    requires Inv(s) && !i.reset
    ensures s.awvalid && !i.awready ==> Next(s, i).awvalid && Next(s, i).addr == s.addr
    ensures s.wvalid && !i.wready ==> Next(s, i).wvalid && Next(s, i).wdata == s.wdata
    ensures s.arvalid && !i.arready ==> Next(s, i).arvalid && Next(s, i).addr == s.addr
  {}

  function Decided(r: Run): seq<Word> {
    r.rsps + (if r.s.rspStb then [r.s.rspWord] else [])
  }

  predicate WriteUnderWay(r: Run, m: Machine, c: Word) {
    && !r.s.rready && c.kind == ACK
    && r.s.addr == (if r.s.awvalid then m.addr else Advance(m.addr, m.inc))
    && (r.s.wvalid ==> r.s.wdata == c.payload)
    && r.aw == (if r.s.wvalid && !r.s.awvalid then [m.addr] else [])
    && r.w == (if r.s.awvalid && !r.s.wvalid then [c.payload] else [])
    && r.txns == (if r.s.awvalid || r.s.wvalid then m.txns else m.txns + [Request(m.addr, c)])
  }

  predicate ReadUnderWay(r: Run, m: Machine, c: Word) {
    && c.kind == DATA
    && r.s.addr == (if r.s.arvalid then m.addr else Advance(m.addr, m.inc))
    && r.aw == [] && r.w == []
    && r.txns == (if r.s.arvalid then m.txns else m.txns + [Request(m.addr, c)])
  }

  predicate Refines(r: Run, dev: Device) {
    var l := ExecAllLazy(r.start, r.cmds, dev);
    && Inv(r.s)
    && r.taken == r.cmds + r.cur
    && r.s.inc == l.m.inc
    && (if !Busy(r.s) then
          && r.cur == [] && r.s.addr == l.m.addr && r.s.newaddr == l.unsent
          && r.txns == l.m.txns && r.aw == [] && r.w == []
          && Decided(r) == l.m.rsps
        else
          && |r.cur| == 1 && !r.s.newaddr
          && (if r.s.bready then WriteUnderWay(r, l.m, r.cur[0]) else ReadUnderWay(r, l.m, r.cur[0]))
          && Decided(r) == l.m.rsps + if l.unsent then [Echo(l.m.addr, l.m.inc)] else [])
  }

  lemma AnswerStep(r: Run, i: Input, dev: Device)
    requires Refines(r, dev) && Expected(r, i, dev) && !i.reset && Answers(i)
    ensures Decided(Step(r, i)) == Decided(r) + [Response(r.s.bready, dev(r.txns))]
  {
    OneSourceNow(r.s, i);
  }

  lemma FlushStep(r: Run, i: Input, dev: Device)
    requires Refines(r, dev) && Expected(r, i, dev) && !i.reset && !Answers(i)
    ensures Accepts(r.s, i) && IsBus(i.cmd) && r.s.newaddr ==>
              Decided(Step(r, i)) == Decided(r) + [Echo(r.s.addr, r.s.inc)]
    ensures !(Accepts(r.s, i) && IsBus(i.cmd) && r.s.newaddr) ==>
              Decided(Step(r, i)) == Decided(r)
  {
    OneSourceNow(r.s, i);
  }

  lemma IdleWaits(r: Run, i: Input, dev: Device)
    requires Refines(r, dev) && Expected(r, i, dev) && !i.reset && !Busy(r.s) && !Accepts(r.s, i)
    ensures Refines(Step(r, i), dev)
  {
    FlushStep(r, i, dev);
  }

  lemma IdleTakesBus(r: Run, i: Input, dev: Device)
    requires Refines(r, dev) && Expected(r, i, dev) && !i.reset && !Busy(r.s) && Accepts(r.s, i) && IsBus(i.cmd)
    ensures Refines(Step(r, i), dev)
  {
    FlushStep(r, i, dev);
    assert r.taken == r.cmds;
  }

  lemma IdleTakesOther(r: Run, i: Input, dev: Device)
    requires Refines(r, dev) && Expected(r, i, dev) && !i.reset && !Busy(r.s) && Accepts(r.s, i) && !IsBus(i.cmd)
    ensures Refines(Step(r, i), dev)
  {
    FlushStep(r, i, dev);
    ExecLazySnoc(r.start, r.cmds, i.cmd, dev);
    assert r.taken == r.cmds;
  }

  lemma IdleStep(r: Run, i: Input, dev: Device)
    requires Refines(r, dev) && Expected(r, i, dev) && !i.reset && !Busy(r.s)
    ensures Refines(Step(r, i), dev)
  {
    if !Accepts(r.s, i) {
      IdleWaits(r, i, dev);
    } else if IsBus(i.cmd) {
      IdleTakesBus(r, i, dev);
    } else {
      IdleTakesOther(r, i, dev);
    }
  }

  lemma WriteStep(r: Run, i: Input, dev: Device)
    requires Refines(r, dev) && Expected(r, i, dev) && !i.reset && r.s.bready
    ensures Refines(Step(r, i), dev)
  {
    if Answers(i) {
      AnswerStep(r, i, dev);
      ExecLazySnoc(r.start, r.cmds, r.cur[0], dev);
      assert r.cur == [r.cur[0]];
    } else {
      FlushStep(r, i, dev);
    }
  }

  lemma ReadStep(r: Run, i: Input, dev: Device)
    requires Refines(r, dev) && Expected(r, i, dev) && !i.reset && r.s.rready
    ensures Refines(Step(r, i), dev)
  {
    if Answers(i) {
      AnswerStep(r, i, dev);
      ExecLazySnoc(r.start, r.cmds, r.cur[0], dev);
      assert r.cur == [r.cur[0]];
    } else {
      FlushStep(r, i, dev);
    }
  }

  lemma TxnAdded(txns: seq<Txn>, t: Txn)
    ensures |Keep(IsWrite, txns + [t])| == |Keep(IsWrite, txns)| + if t.write then 1 else 0
    ensures |Keep(IsRead, txns + [t])| == |Keep(IsRead, txns)| + if t.write then 0 else 1
  {
    assert (txns + [t])[..|txns|] == txns;
  }

  /** A request becomes whole on the clock that leaves the master only the answer to wait for. */
  lemma RequestWhole(r: Run, i: Input, dev: Device)
    requires Refines(r, dev)
    ensures Paired(r, i) <==>
            (r.s.bready && (r.s.awvalid || r.s.wvalid) && (r.s.awvalid ==> i.awready) && (r.s.wvalid ==> i.wready))
    ensures !(Paired(r, i) && r.s.arvalid)
  {}

  lemma TxnsCounted(r: Run, i: Input, dev: Device)
    requires Refines(r, dev)
    ensures |Keep(IsWrite, TxnsAfter(r, i))| == |Keep(IsWrite, r.txns)| + if Paired(r, i) then 1 else 0
    ensures |Keep(IsRead, TxnsAfter(r, i))| == |Keep(IsRead, r.txns)| + if r.s.arvalid && i.arready then 1 else 0
  {
    RequestWhole(r, i, dev);
    if Paired(r, i) {
      TxnAdded(r.txns, Txn(true, AwAfter(r, i)[0], WAfter(r, i)[0]));
    } else if r.s.arvalid && i.arready {
      TxnAdded(r.txns, Txn(false, r.s.addr, 0));
    }
  }

  lemma BalancedStep(r: Run, i: Input, dev: Device)
    requires Refines(r, dev) && Expected(r, i, dev) && Balanced(r)
    ensures Balanced(Step(r, i))
  {
    if !i.reset {
      RequestWhole(r, i, dev);
      TxnsCounted(r, i, dev);
      assert Step(r, i).txns == TxnsAfter(r, i);
    }
  }

  lemma RefinesStep(r: Run, i: Input, dev: Device)
    requires Refines(r, dev) && Expected(r, i, dev)
    ensures Refines(Step(r, i), dev)
  {
    if !i.reset {
      if r.s.bready {
        WriteStep(r, i, dev);
      } else if r.s.rready {
        ReadStep(r, i, dev);
      } else {
        IdleStep(r, i, dev);
      }
    }
  }

  function After(s: State, ins: seq<Input>): Run {
    if ins == [] then Start(s) else Step(After(s, ins[..|ins| - 1]), ins[|ins| - 1])
  }

  predicate LegalRun(s: State, ins: seq<Input>, dev: Device) {
    ins != [] ==>
      && LegalRun(s, ins[..|ins| - 1], dev)
      && Legal(After(s, ins[..|ins| - 1]), ins[|ins| - 1], dev)
  }

  lemma {:induction false} Reachable(s: State, ins: seq<Input>, dev: Device)
    requires Fresh(s) && LegalRun(s, ins, dev)
    ensures var r := After(s, ins);
            && Refines(r, dev) && Balanced(r)
            && r.start == Lazy(Machine(r.start.m.addr, r.start.m.inc, [], [RSP_RESET]), true)
  {
    if ins != [] {
      Reachable(s, ins[..|ins| - 1], dev);
      var r, i := After(s, ins[..|ins| - 1]), ins[|ins| - 1];
      LegalIsExpected(r, i, dev);
      RefinesStep(r, i, dev);
      BalancedStep(r, i, dev);
    }
  }

  /**
   * In every run against every legal slave: at most one transaction is outstanding,
   * an answer is taken on the clock it is offered, and at most one of the three
   * sources makes up a response word, so that the OR mixes nothing.
   */
  lemma OneSource(s: State, ins: seq<Input>, i: Input, dev: Device)
    requires Fresh(s) && LegalRun(s, ins + [i], dev)
    ensures var r := After(s, ins);
            && |r.txns| <= r.bs + r.rs + 1
            && (i.bvalid ==> r.s.bready && !r.s.awvalid && !r.s.wvalid)
            && (i.rvalid ==> r.s.rready && !r.s.arvalid)
            && !(i.bvalid && i.rvalid) && !(r.s.newaddr && (i.bvalid || i.rvalid))
            && RspWord(r.s, i) ==
               if i.bvalid then WriteResult(i) else if i.rvalid then ReadResult(i) else AddressEcho(r.s)
  {
    assert (ins + [i])[..|ins|] == ins;
    Reachable(s, ins, dev);
    LegalIsExpected(After(s, ins), i, dev);
    OneSourceNow(After(s, ins).s, i);
    WritesAndReads(After(s, ins).txns);
  }

  lemma {:induction false} WritesAndReads(txns: seq<Txn>)
    ensures |txns| == |Keep(IsWrite, txns)| + |Keep(IsRead, txns)|
  {
    if txns != [] {
      WritesAndReads(txns[..|txns| - 1]);
    }
  }

  lemma EchoesApart(r: Run, dev: Device)
    requires Refines(r, dev)
    ensures Keep(NotEcho, Decided(r)) == Keep(NotEcho, ExecAll(r.start.m, r.cmds, dev).rsps)
  {
    var m := ExecAllLazy(r.start, r.cmds, dev).m;
    LazyAgrees(r.start, r.start.m, r.cmds, dev);
    KeepAppend(NotEcho, m.rsps, [Echo(m.addr, m.inc)]);
  }

  /**
   * Refinement, against every legal slave: the commands taken are those
   * completed and at most one under way; the slave has seen the sequential
   * machine's requests and at most the one under way; and, address echoes
   * apart, the responses decided are those of the sequential machine, which is
   * the one hbexec implements.
   */
  lemma Refinement(s: State, ins: seq<Input>, dev: Device)
    requires Fresh(s) && LegalRun(s, ins, dev)
    ensures var r := After(s, ins);
            && r.start.m.txns == [] && r.start.m.rsps == [RSP_RESET]
            && r.taken == r.cmds + r.cur && |r.cur| <= 1
    ensures var r := After(s, ins);
            var m := ExecAll(r.start.m, r.cmds, dev);
            && (r.txns == m.txns || (|r.cur| == 1 && r.txns == m.txns + [Request(m.addr, r.cur[0])]))
            && Keep(NotEcho, Decided(r)) == Keep(NotEcho, m.rsps)
  {
    var r := After(s, ins);
    Reachable(s, ins, dev);
    LazyAgrees(r.start, r.start.m, r.cmds, dev);
    EchoesApart(r, dev);
  }

  class ExecAxi {
    var awvalid: bool
    var wvalid: bool
    var bready: bool
    var arvalid: bool
    var rready: bool
    var addr: Word30
    var newaddr: bool
    var inc: bool
    var wdata: Word32
    var rspStb: bool
    var rspWord: Word

    function Regs(): State
      reads this
    {
      State(awvalid, wvalid, bready, arvalid, rready, addr, newaddr, inc, wdata, rspStb, rspWord)
    }

    constructor ()
      ensures Fresh(Regs()) && Inv(Regs())
    {
      awvalid, wvalid, bready, arvalid, rready := false, false, false, false, false;
      addr, newaddr, wdata := 0, true, 0;
      rspStb, rspWord := true, RSP_RESET;
      inc := *;
    }

    /** The always block of AWVALID, WVALID and BREADY. */
    static method WriteChannels(s: State, i: Input) returns (aw: bool, w: bool, b: bool)
      ensures aw == Next(s, i).awvalid && w == Next(s, i).wvalid && b == Next(s, i).bready
    {
      aw, w, b := s.awvalid, s.wvalid, s.bready;
      if i.reset {
        aw, w, b := false, false, false;
      } else if s.bready {
        if i.bvalid {
          b := false;
        }
        if i.awready {
          aw := false;
        }
        if i.wready {
          w := false;
        }
      } else if i.cmdStb && !Busy(s) && i.cmd.kind == ACK {
        aw, w, b := true, true, true;
      }
    }

    /** The always block of ARVALID and RREADY. */
    static method ReadChannels(s: State, i: Input) returns (ar: bool, r: bool)
      ensures ar == Next(s, i).arvalid && r == Next(s, i).rready
    {
      ar, r := s.arvalid, s.rready;
      if i.reset {
        ar, r := false, false;
      } else if s.rready {
        if i.arready {
          ar := false;
        }
        if i.rvalid {
          r := false;
        }
      } else if i.cmdStb && !Busy(s) && i.cmd.kind == DATA {
        ar, r := true, true;
      }
    }

    /** The always block of AWADDR and inc. */
    static method Address(s: State, i: Input) returns (a: Word30, inc': bool)
      ensures a == Next(s, i).addr && inc' == Next(s, i).inc
    {
      a, inc' := s.addr, s.inc;
      if i.cmdStb && !Busy(s) && i.cmd.kind == ADDR {
        a := NewAddr(s.addr, i.cmd.payload);
        inc' := Increments(i.cmd.payload);
      } else if (s.awvalid && i.awready) || (s.arvalid && i.arready) {
        a := Advance(s.addr, s.inc);
      }
    }

    /** The always block of newaddr. */
    static method Unsent(s: State, i: Input) returns (unsent: bool)
      ensures unsent == Next(s, i).newaddr
    {
      var cmd := i.cmdStb && !Busy(s);
      if i.reset {
        unsent := true;
      } else if cmd && i.cmd.kind == ADDR {
        unsent := true;
      } else if cmd && (i.cmd.kind == DATA || i.cmd.kind == ACK) {
        unsent := false;
      } else {
        unsent := s.newaddr;
      }
    }

    /** The combinational block of rsp_word and the registers that follow it. */
    static method Respond(s: State, i: Input) returns (stb: bool, word: Word)
      ensures stb == Next(s, i).rspStb && word == Next(s, i).rspWord
    {
      word := NOTHING;
      if i.bvalid {
        word := if i.berr then RSP_BUS_ERROR else RSP_WRITE_ACK;
      }
      if i.rvalid {
        word := OrWord(word, if i.rerr then RSP_BUS_ERROR else Word(DATA, i.rdata));
      }
      if s.newaddr {
        word := OrWord(word, Echo(s.addr, s.inc));
      }
      stb := i.bvalid || i.rvalid || (s.newaddr && i.cmdStb && !Busy(s) && IsBus(i.cmd));
      if i.reset {
        stb, word := true, RSP_RESET;
      }
    }

    /** All next values, from the registers as they stand. */
    static method NextValues(s: State, i: Input) returns (n: State)
      ensures n == Next(s, i)
    {
      var aw, w, b := WriteChannels(s, i);
      var ar, r := ReadChannels(s, i);
      var a, inc' := Address(s, i);
      var unsent := Unsent(s, i);
      var stb, word := Respond(s, i);
      n := State(aw, w, b, ar, r, a, unsent, inc', if s.bready then s.wdata else i.cmd.payload, stb, word);
    }

    method Step(i: Input)
      modifies this
      ensures Regs() == Next(old(Regs()), i)
    {
      var n := NextValues(Regs(), i);
      awvalid, wvalid, bready, arvalid, rready := n.awvalid, n.wvalid, n.bready, n.arvalid, n.rready;
      addr, newaddr, inc, wdata := n.addr, n.newaddr, n.inc, n.wdata;
      rspStb, rspWord := n.rspStb, n.rspWord;
    }
  }
}
