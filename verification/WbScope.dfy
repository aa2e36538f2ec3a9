/**
 * wbscope, both clocks the same: captures samples into a circular memory until
 * a holdoff after the trigger, then plays the memory back oldest first through
 * a read pipeline whose address is worked out a clock ahead.
 */
module WbScope {
  import opened HexWord

  /** Memory size 2^lg, and one past the largest holdoff. */
  datatype Params = Params(lg: nat, size: nat, holdoffs: nat) {
    predicate Ok() { lg < 32 && size == Pow2(lg) && 2 < holdoffs <= 0x10_0000 }
  }

  function Pow2(n: nat): (p: nat)
    ensures p > 0
  {
    if n == 0 then 1 else 2 * Pow2(n - 1)
  }

  /** `run` is low while a reset is requested. */
  datatype Config = Config(run: bool, manual: bool, disable: bool, holdoff: nat)

  datatype Capture = Capture(
    triggered: bool, primed: bool, stopped: bool, counter: nat, waddr: nat, pipe: Word32, mem: seq<Word32>)

  datatype Readout = Readout(
    raddr: nat, readAddress: bool, thisAddr: nat, nxtMem: Word32, preAck: bool, ack: bool, busData: Word32,
    levelInt: bool)

  datatype State = State(p: Params, cfg: Config, cap: Capture, rd: Readout)

  /** A clock's sample and bus request; `adr` is the one address line. */
  datatype Input = Input(
    ce: bool, trigger: bool, data: Word32,
    cyc: bool, stb: bool, we: bool, adr: bool, wdata: Word32)

  predicate WritesControl(i: Input) { i.stb && i.we && !i.adr }

  predicate ReadsData(i: Input) { i.stb && !i.we && i.adr }

  function Bit(v: Word32, weight: nat): bool
    requires weight > 0
  {
    (v / weight) % 2 == 1
  }

  /** Bit 31 of a control write, low to ask for a reset. */
  predicate KeepsRunning(i: Input) { i.wdata / 0x8000_0000 == 1 }

  // Addresses wrap at the memory size.

  function Inc(a: nat, size: nat): nat { if a + 1 == size then 0 else a + 1 }

  function Add(a: nat, b: nat, size: nat): nat { if a + b >= size then a + b - size else a + b }

  function NextConfig(p: Params, c: Config, i: Input): Config
    requires p.Ok()
  {
    var write := WritesControl(i);
    Config(
      !c.run || !write || KeepsRunning(i),
      if write then (i.wdata / 0x800_0000) % 2 == 1 else c.manual,
      if write then (i.wdata / 0x400_0000) % 2 == 1 else c.disable,
      if write && !KeepsRunning(i) && c.run then Holdoff(p, i.wdata) else c.holdoff)
  }

  /** The low bits of a control write, as many as a holdoff has. */
  function Holdoff(p: Params, v: Word32): nat
    requires p.Ok()
  {
    v % p.holdoffs
  }

  predicate Triggers(c: Config, a: Capture, i: Input) {
    i.ce && a.primed && ((i.trigger && !c.disable) || c.manual)
  }

  predicate Writes(a: Capture, i: Input) { i.ce && !a.stopped }

  predicate InRange(p: Params, a: Capture) { |a.mem| == p.size && a.waddr < p.size }

  function NextCapture(p: Params, c: Config, a: Capture, i: Input): Capture
    requires InRange(p, a)
  {
    Capture(
      c.run && (a.triggered || Triggers(c, a, i)),
      c.run && (a.primed || (Writes(a, i) && a.waddr + 1 == p.size)),
      c.run && a.triggered && (a.stopped || a.counter >= c.holdoff),
      if !c.run then 0
      else if i.ce && a.triggered && !a.stopped then Inc(a.counter, p.holdoffs) else a.counter,
      if !c.run then 0 else if Writes(a, i) then Inc(a.waddr, p.size) else a.waddr,
      if i.ce then i.data else a.pipe,
      if Writes(a, i) then a.mem[a.waddr := a.pipe] else a.mem)
  }

  /** Bits 28 to 25: primed, manual, disable, read address zero. */
  function LowFlags(s: State): (f: nat)
    ensures f < 16
  {
    (if s.cap.primed then 8 else 0) + (if s.cfg.manual then 4 else 0)
    + (if s.cfg.disable then 2 else 0) + (if s.rd.raddr == 0 then 1 else 0)
  }

  /** Bits 31 to 29: reset requested, stopped, triggered. */
  function HighFlags(s: State): (f: nat)
    ensures f < 8 && (f % 4 == 3 <==> s.cap.stopped && s.cap.triggered)
  {
    (if s.cfg.run then 0 else 4) + (if s.cap.stopped then 2 else 0) + (if s.cap.triggered then 1 else 0)
  }

  /** The status word: flags, memory size and holdoff. */
  function Control(s: State): Word32
    requires s.p.Ok() && s.cfg.holdoff < s.p.holdoffs
  {
    HighFlags(s) * 0x2000_0000 + LowFlags(s) * 0x200_0000 + s.p.lg * 0x10_0000 + s.cfg.holdoff
  }

  predicate Ok(s: State) {
    && s.p.Ok() && InRange(s.p, s.cap)
    && s.cfg.holdoff < s.p.holdoffs && s.rd.raddr < s.p.size && s.rd.thisAddr < s.p.size
  }

  function NextReadout(s: State, i: Input): Readout
    requires Ok(s)
  {
    var r := s.rd;
    var at := Add(r.raddr, s.cap.waddr, s.p.size);
    Readout(
      if !s.cfg.run || WritesControl(i) then 0
      else if ReadsData(i) && s.cap.stopped then Inc(r.raddr, s.p.size) else r.raddr,
      i.adr,
      if ReadsData(i) then Inc(at, s.p.size) else at,
      s.cap.mem[r.thisAddr],
      i.stb,
      r.preAck && i.cyc,
      if !r.readAddress then Control(s) else if !s.cap.stopped then i.data else r.nxtMem,
      s.cfg.run && s.cap.stopped && !s.cfg.disable)
  }

  function Next(s: State, i: Input): (n: State)
    requires Ok(s)
    ensures Ok(n) && n.p == s.p
  {
    State(s.p, NextConfig(s.p, s.cfg, i), NextCapture(s.p, s.cfg, s.cap, i), NextReadout(s, i))
  }

  /** The scope powers up in reset; the read pipeline and the memory hold anything. */
  predicate Initial(s: State) {
    && Ok(s)
    && !s.cfg.run && !s.cfg.manual && !s.cfg.disable
    && !s.cap.triggered && !s.cap.primed && !s.cap.stopped && s.cap.counter == 0 && s.cap.waddr == 0
    && !s.rd.preAck && !s.rd.ack && !s.rd.levelInt
  }

  /** The memory, oldest sample first once it is full. */
  function Window(a: Capture): seq<Word32>
    requires a.waddr <= |a.mem|
  {
    a.mem[a.waddr..] + a.mem[..a.waddr]
  }

  lemma WindowAt(p: Params, a: Capture, j: nat)
    requires InRange(p, a) && j < p.size
    ensures Window(a)[j] == a.mem[Add(j, a.waddr, p.size)]
  {}

  // Runs since the last reset.

  /**
   * `first` is what the pipe held when the reset ended; `taken` the samples taken
   * in since, while capturing; `trig` the place in capture order, counted with
   * `first`, of the sample on the triggering clock, and `mark` that sample;
   * `stopCe` whether the stopping clock carried a sample; `nreads` the data reads
   * since the read address was last cleared.
   */
  datatype Run = Run(
    s: State, first: Word32, taken: seq<Word32>, trig: nat, mark: Word32, stopCe: bool, nreads: nat)

  function Start(s: State): Run { Run(s, s.cap.pipe, [], 0, 0, false, 0) }

  /** The samples in the order they pass through the pipe. */
  function Order(r: Run): seq<Word32> { [r.first] + r.taken }

  /** The samples written to memory: all but the one still in the pipe. */
  function Written(r: Run): seq<Word32> { Order(r)[..|r.taken|] }

  function Step(r: Run, i: Input): (n: Run)
    requires Ok(r.s)
    ensures Ok(n.s) && n.s == Next(r.s, i)
  {
    var n := Next(r.s, i);
    if !r.s.cfg.run then Start(n)
    else Run(
      n, r.first,
      if Writes(r.s.cap, i) then r.taken + [i.data] else r.taken,
      if n.cap.triggered && !r.s.cap.triggered then |r.taken| + 1 else r.trig,
      if n.cap.triggered && !r.s.cap.triggered then i.data else r.mark,
      if n.cap.stopped && !r.s.cap.stopped then i.ce else r.stopCe,
      if WritesControl(i) then 0 else if ReadsData(i) && r.s.cap.stopped then r.nreads + 1 else r.nreads)
  }

  function After(s: State, ins: seq<Input>): (r: Run)
    requires Ok(s)
    ensures Ok(r.s) && r.s.p == s.p
  {
    if ins == [] then Start(s) else Step(After(s, ins[..|ins| - 1]), ins[|ins| - 1])
  }

  /** `j` wrapped to the memory size. */
  function Wrap(j: nat, size: nat): (k: nat)
    requires size > 0
    ensures k < size && (j < size ==> k == j)
  {
    if j < size then j else Wrap(j - size, size)
  }

  lemma {:induction false} WrapInc(j: nat, size: nat)
    requires size > 0
    ensures Wrap(j + 1, size) == Inc(Wrap(j, size), size)
    decreases j
  {
    if j >= size {
      WrapInc(j - size, size);
    } else if j + 1 == size {
      assert Wrap(size, size) == Wrap(0, size);
    }
  }

  /** The memory holds the latest samples written, oldest first from the write address on. */
  predicate Captures(r: Run)
    requires Ok(r.s)
  {
    var w, a := Written(r), r.s.cap;
    && (!a.stopped ==> a.pipe == Order(r)[|r.taken|])
    && (if a.primed then |w| >= r.s.p.size && Window(a) == w[|w| - r.s.p.size..]
        else a.waddr == |w| && a.mem[..a.waddr] == w)
  }

  predicate Counts(r: Run) {
    var a := r.s.cap;
    && (a.stopped ==> a.triggered)
    && (a.triggered ==> a.primed && r.trig <= |r.taken| && Order(r)[r.trig] == r.mark)
    && (!a.triggered ==> a.counter == 0)
    && (r.s.cfg.run && a.triggered && !a.stopped ==>
          a.counter == |r.taken| - r.trig && a.counter <= r.s.cfg.holdoff)
    && (r.s.cfg.run && a.stopped ==>
          |r.taken| == r.trig + r.s.cfg.holdoff + (if r.stopCe then 1 else 0))
  }

  predicate Inv(r: Run) {
    && Ok(r.s)
    && (r.s.cfg.run ==> Captures(r) && Counts(r) && r.s.rd.raddr == Wrap(r.nreads, r.s.p.size))
  }

  /** Writing moves the window on by one sample, or fills it. */
  lemma WindowStep(p: Params, c: Config, a: Capture, i: Input)
    requires InRange(p, a) && c.run && Writes(a, i)
    ensures var b := NextCapture(p, c, a, i);
            && (a.primed ==> Window(b) == Window(a)[1..] + [a.pipe])
            && (!a.primed && b.primed ==> Window(b) == a.mem[..a.waddr] + [a.pipe])
            && (!b.primed ==> b.mem[..b.waddr] == a.mem[..a.waddr] + [a.pipe])
  {}

  lemma WindowStays(p: Params, c: Config, a: Capture, i: Input)
    requires InRange(p, a) && c.run && !Writes(a, i)
    ensures var b := NextCapture(p, c, a, i);
            Window(b) == Window(a) && b.mem == a.mem && b.waddr == a.waddr && b.primed == a.primed
  {}

  lemma WrittenStep(r: Run, i: Input)
    requires Ok(r.s) && r.s.cfg.run && Captures(r)
    ensures Writes(r.s.cap, i) ==> Written(Step(r, i)) == Written(r) + [r.s.cap.pipe]
    ensures !Writes(r.s.cap, i) ==> Written(Step(r, i)) == Written(r)
  {}

  lemma CapturesStep(r: Run, i: Input)
    requires Ok(r.s) && r.s.cfg.run && Captures(r) && Counts(r)
    ensures Captures(Step(r, i))
  {
    hide NextReadout, Window;
    WrittenStep(r, i);
    if Writes(r.s.cap, i) {
      WindowStep(r.s.p, r.s.cfg, r.s.cap, i);
    } else {
      WindowStays(r.s.p, r.s.cfg, r.s.cap, i);
    }
  }

  lemma CountsStep(r: Run, i: Input)
    requires Ok(r.s) && r.s.cfg.run && Counts(r)
    ensures Step(r, i).s.cfg.run ==> Counts(Step(r, i))
  {}

  lemma InvStep(r: Run, i: Input)
    requires Inv(r)
    ensures Inv(Step(r, i))
  {
    if r.s.cfg.run {
      CapturesStep(r, i);
      CountsStep(r, i);
      WrapInc(r.nreads, r.s.p.size);
    }
  }

  lemma {:induction false} Reachable(s: State, ins: seq<Input>)
    requires Initial(s)
    ensures Inv(After(s, ins))
  {
    if ins != [] {
      Reachable(s, ins[..|ins| - 1]);
      InvStep(After(s, ins[..|ins| - 1]), ins[|ins| - 1]);
    }
  }

  // Reading back.

  /**
   * While stopped, the address worked out a clock ahead is the one the read
   * needs, unless a control write has just cleared a nonzero read address.
   */
  lemma LookAhead(s: State, i: Input)
    requires Ok(s) && s.cfg.run && s.cap.stopped && s.cap.triggered
    ensures var n := Next(s, i);
            n.rd.thisAddr == Add(n.rd.raddr, n.cap.waddr, s.p.size)
            <==> !WritesControl(i) || s.rd.raddr == 0
  {}

  /** The read of `i1`, one clock after `i0`, is answered after `i2` with the sample it asks for. */
  predicate AnswersInOrder(r: Run, i0: Input, i1: Input, i2: Input)
    requires Ok(r.s)
  {
    var asked := Step(r, i0);
    var answer := Step(Step(asked, i1), i2).s.rd;
    && |Written(r)| >= r.s.p.size
    && answer.busData == Written(r)[|Written(r)| - r.s.p.size + Wrap(asked.nreads, r.s.p.size)]
    && answer.ack == i2.cyc
  }

  /**
   * Scope read-back.  Once stopped for a full clock, a data read not on the heels
   * of a control write is answered two clocks later with the sample it asks for:
   * the j-th read since the read address was cleared gets the j-th oldest of the
   * last `size` samples written, whatever the spacing of the reads.
   */
  lemma ReadBack(s: State, ins: seq<Input>, i0: Input, i1: Input, i2: Input)
    requires Initial(s)
    requires After(s, ins).s.cfg.run && After(s, ins).s.cap.stopped
    requires !WritesControl(i0) && ReadsData(i1)
    ensures AnswersInOrder(After(s, ins), i0, i1, i2)
  {
    Reachable(s, ins);
    ReadBackAt(After(s, ins), i0, i1, i2);
  }

  lemma ReadBackAt(r: Run, i0: Input, i1: Input, i2: Input)
    requires Inv(r) && r.s.cfg.run && r.s.cap.stopped
    requires !WritesControl(i0) && ReadsData(i1)
    ensures AnswersInOrder(r, i0, i1, i2)
  {
    var asked := Step(r, i0);
    InvStep(r, i0);
    LookAhead(r.s, i0);
    var given := Step(asked, i1);
    assert given.s.rd.readAddress && given.s.cap.stopped;
    assert asked.s.cap.mem == r.s.cap.mem && asked.s.cap.waddr == r.s.cap.waddr;
    WindowAt(r.s.p, r.s.cap, asked.s.rd.raddr);
    assert given.s.rd.nxtMem == Window(r.s.cap)[asked.s.rd.raddr];
  }

  /**
   * A data read on the heels of a control write: it asks for the oldest sample and
   * is answered with the one at the read address that the write has just cleared.
   */
  lemma StaleRead(r: Run, i0: Input, i1: Input, i2: Input)
    requires Inv(r) && r.s.cfg.run && r.s.cap.stopped
    requires WritesControl(i0) && KeepsRunning(i0) && ReadsData(i1)
    ensures var asked := Step(r, i0);
            && asked.nreads == 0
            && Step(Step(asked, i1), i2).s.rd.busData == Window(r.s.cap)[r.s.rd.raddr]
  {
    var asked := Step(r, i0);
    var given := Step(asked, i1);
    assert asked.s.cap.mem == r.s.cap.mem && asked.s.cap.waddr == r.s.cap.waddr;
    assert given.s.rd.readAddress && given.s.cap.stopped;
    WindowAt(r.s.p, r.s.cap, r.s.rd.raddr);
    assert given.s.rd.nxtMem == Window(r.s.cap)[r.s.rd.raddr];
  }

  // The status register and the control register.

  predicate ReadsStatus(i: Input) { i.stb && !i.we && !i.adr }

  /** Every field of a status word. */
  predicate TellsOf(v: Word32, s: State) {
    && LengthField(v) == s.p.lg && HoldoffField(v) == s.cfg.holdoff
    && (ReadyField(v) <==> s.cap.stopped && s.cap.triggered)
    && (Bit(v, 0x8000_0000) <==> !s.cfg.run)
    && (Bit(v, 0x4000_0000) <==> s.cap.stopped)
    && (Bit(v, 0x2000_0000) <==> s.cap.triggered)
    && (Bit(v, 0x1000_0000) <==> s.cap.primed)
    && (Bit(v, 0x800_0000) <==> s.cfg.manual)
    && (Bit(v, 0x400_0000) <==> s.cfg.disable)
    && (Bit(v, 0x200_0000) <==> s.rd.raddr == 0)
  }

  /** A read of the status register is answered two clocks later with the state of the scope after the first. */
  lemma StatusRead(s: State, i1: Input, i2: Input)
    requires Ok(s) && ReadsStatus(i1)
    ensures var asked, n := Next(s, i1), Next(Next(s, i1), i2);
            && TellsOf(n.rd.busData, asked) && n.rd.ack == i2.cyc
            && asked.cfg.holdoff == s.cfg.holdoff && asked.cfg.manual == s.cfg.manual && asked.cfg.disable == s.cfg.disable
  {
    ControlTells(Next(s, i1));
  }

  lemma ControlTells(s: State)
    requires Ok(s)
    ensures TellsOf(Control(s), s)
  {
    ControlFields(s);
    FlagsOf(s);
    FlagWord(s);
    hide HighFlags, LowFlags, Control, LengthField, HoldoffField, ReadyField, Bit;
    FlagBits(Control(s), HighFlags(s), LowFlags(s));
  }

  lemma FlagBits(v: Word32, high: nat, low: nat)
    requires high < 8 && low < 16 && v / 0x200_0000 == high * 16 + low
    ensures Bit(v, 0x8000_0000) <==> high / 4 == 1
    ensures Bit(v, 0x4000_0000) <==> (high / 2) % 2 == 1
    ensures Bit(v, 0x2000_0000) <==> high % 2 == 1
    ensures Bit(v, 0x1000_0000) <==> low / 8 == 1
    ensures Bit(v, 0x800_0000) <==> (low / 4) % 2 == 1
    ensures Bit(v, 0x400_0000) <==> (low / 2) % 2 == 1
    ensures Bit(v, 0x200_0000) <==> low % 2 == 1
  {
    Halves(v);
    Unflag(high, low, v / 0x200_0000);
  }

  lemma FlagWord(s: State)
    requires Ok(s)
    ensures Control(s) / 0x200_0000 == HighFlags(s) * 16 + LowFlags(s)
  {
    var rest := s.p.lg * 0x10_0000 + s.cfg.holdoff;
    assert rest < 0x200_0000;
  }

  lemma FlagsOf(s: State)
    ensures (HighFlags(s) / 4 == 1 <==> !s.cfg.run) && ((HighFlags(s) / 2) % 2 == 1 <==> s.cap.stopped)
    ensures HighFlags(s) % 2 == 1 <==> s.cap.triggered
    ensures (LowFlags(s) / 8 == 1 <==> s.cap.primed) && ((LowFlags(s) / 4) % 2 == 1 <==> s.cfg.manual)
    ensures ((LowFlags(s) / 2) % 2 == 1 <==> s.cfg.disable) && (LowFlags(s) % 2 == 1 <==> s.rd.raddr == 0)
  {}

  lemma Halves(v: Word32)
    ensures v / 0x400_0000 == v / 0x200_0000 / 2 && v / 0x800_0000 == v / 0x200_0000 / 4
    ensures v / 0x1000_0000 == v / 0x200_0000 / 8 && v / 0x2000_0000 == v / 0x200_0000 / 16
    ensures v / 0x4000_0000 == v / 0x200_0000 / 32 && v / 0x8000_0000 == v / 0x200_0000 / 64
  {}

  lemma Unflag(high: nat, low: nat, q: nat)
    requires high < 8 && low < 16 && q == high * 16 + low
    ensures q / 16 == high && q / 32 == high / 2 && q / 64 == high / 4
    ensures (q / 64) % 2 == high / 4
    ensures (q / 8) % 2 == low / 8 && (q / 4) % 2 == (low / 4) % 2 && (q / 2) % 2 == (low / 2) % 2 && q % 2 == low % 2
  {
    assert q / 8 == high * 2 + low / 8;
    assert q / 4 == high * 4 + low / 4;
    assert q / 2 == high * 8 + low / 2;
  }

  /** A data read while the scope is capturing is answered with the sample then on its input, not one from memory. */
  lemma LiveRead(s: State, i1: Input, i2: Input)
    requires Ok(s) && ReadsData(i1) && !Next(s, i1).cap.stopped
    ensures Next(Next(s, i1), i2).rd.busData == i2.data
  {}

  /** A control write with bit 31 low asks for a reset, sets the holdoff, and clears the capture on the clock after. */
  lemma ResetRequested(s: State, i1: Input, i2: Input)
    requires Ok(s) && s.cfg.run && WritesControl(i1) && !Bit(i1.wdata, 0x8000_0000)
    ensures var n := Next(Next(s, i1), i2);
            && n.cfg.run && n.cfg.holdoff == i1.wdata % s.p.holdoffs
            && !n.cap.triggered && !n.cap.primed && !n.cap.stopped
            && n.cap.counter == 0 && n.cap.waddr == 0 && n.rd.raddr == 0
  {}

  /**
   * After a control write that keeps it running the scope has its holdoff and its
   * capture still, and it triggers on a primed clock with a sample if bit 27 of the
   * write forces it, or on the trigger line unless bit 26 disables that.
   */
  lemma TriggersAsControlled(s: State, i1: Input, i2: Input)
    requires Ok(s) && s.cfg.run && WritesControl(i1) && Bit(i1.wdata, 0x8000_0000)
    requires !Next(s, i1).cap.triggered
    ensures var m := Next(s, i1);
            && m.cfg.run && m.cfg.holdoff == s.cfg.holdoff && (s.cap.primed ==> m.cap.primed)
            && (Next(m, i2).cap.triggered <==>
                  i2.ce && m.cap.primed &&
                  (Bit(i1.wdata, 0x800_0000) || (i2.trigger && !Bit(i1.wdata, 0x400_0000))))
  {}

  /** A disabled scope that is not forced never triggers, whatever is on the trigger line. */
  lemma {:induction false} DisabledNeverTriggers(s: State, ins: seq<Input>)
    requires Ok(s) && s.cfg.run && s.cfg.disable && !s.cfg.manual
    requires !s.cap.triggered && !s.cap.stopped && forall i <- ins :: !WritesControl(i)
    ensures var n := After(s, ins).s; n.cfg == s.cfg && !n.cap.triggered && !n.cap.stopped
  {
    if ins != [] {
      DisabledNeverTriggers(s, ins[..|ins| - 1]);
    }
  }

  /** The interrupt line: high on the first clock after the scope stops. */
  predicate Interrupts(s: State) { s.cap.stopped && !s.cfg.disable && !s.rd.levelInt }

  /** It is high on exactly the clock that finds the scope newly stopped, unless disabled. */
  lemma InterruptsOnce(s: State, i: Input)
    requires Ok(s) && s.cfg.run && !WritesControl(i)
    ensures Interrupts(Next(s, i)) <==> Next(s, i).cap.stopped && !s.cap.stopped && !s.cfg.disable
  {}

  // Trigger placement.

  /** Where the sample of the triggering clock is in the window, were the window long enough. */
  function TriggerSlot(r: Run): int { r.trig - (|Written(r)| - r.s.p.size) }

  /**
   * Trigger placement.  Once stopped, the sample on the triggering clock is
   * read back at index size-1-holdoff exactly when the stopping clock carried a
   * sample; otherwise it is one later, the stop not waiting for a sample.
   */
  lemma TriggerPlacement(s: State, ins: seq<Input>)
    requires Initial(s)
    requires var r := After(s, ins); r.s.cfg.run && r.s.cap.stopped
    ensures var r := After(s, ins);
            && (TriggerSlot(r) == r.s.p.size - 1 - r.s.cfg.holdoff <==> r.stopCe)
            && (!r.stopCe ==> TriggerSlot(r) == r.s.p.size - r.s.cfg.holdoff)
            && (0 <= TriggerSlot(r) < r.s.p.size ==> Window(r.s.cap)[TriggerSlot(r)] == r.mark)
  {
    var r := After(s, ins);
    Reachable(s, ins);
    var w := Written(r);
    if 0 <= TriggerSlot(r) < r.s.p.size {
      assert Window(r.s.cap)[TriggerSlot(r)] == w[r.trig] == Order(r)[r.trig];
    }
  }

  lemma {:induction false} AlwaysSampled(s: State, ins: seq<Input>)
    requires Initial(s) && forall i <- ins :: i.ce
    ensures After(s, ins).s.cap.stopped ==> After(s, ins).stopCe
  {
    if ins != [] {
      AlwaysSampled(s, ins[..|ins| - 1]);
    }
  }

  /**
   * With a sample on every clock and a holdoff shorter than the memory, the
   * read numbered size-1-holdoff is answered with the triggering sample.
   */
  lemma TriggerReadBack(s: State, ins: seq<Input>, i0: Input, i1: Input, i2: Input)
    requires Initial(s) && forall i <- ins :: i.ce
    requires var r := After(s, ins); r.s.cfg.run && r.s.cap.stopped && r.s.cfg.holdoff < s.p.size
    requires !WritesControl(i0) && ReadsData(i1)
    requires Step(After(s, ins), i0).nreads == s.p.size - 1 - After(s, ins).s.cfg.holdoff
    ensures Step(Step(Step(After(s, ins), i0), i1), i2).s.rd.busData == After(s, ins).mark
  {
    Reachable(s, ins);
    ReadBack(s, ins, i0, i1, i2);
    TriggerPlacement(s, ins);
    AlwaysSampled(s, ins);
    MarkIsWritten(After(s, ins));
    hide Step, After, Captures, Window;
  }

  /** The triggering sample's place among the samples written. */
  lemma MarkIsWritten(r: Run)
    requires Inv(r) && r.s.cfg.run && r.s.cap.stopped && r.stopCe
    ensures r.trig < |Written(r)| && Written(r)[r.trig] == r.mark
    ensures r.trig == |Written(r)| - 1 - r.s.cfg.holdoff
  {
    assert Written(r)[r.trig] == Order(r)[r.trig];
  }

  // A stop on a clock without a sample.

  function Sample(ce: bool, trigger: bool, data: Word32): Input {
    Input(ce, trigger, data, false, false, false, false, 0)
  }

  /** Three samples into a two-word memory. */
  lemma ThreeSamples(s: State)
    requires Initial(s) && s.p.size == 2 && s.cfg.holdoff == 0
    ensures var r := Step(Step(Step(Start(s), Sample(true, false, 10)), Sample(true, false, 11)), Sample(true, false, 12));
            && r.s.p == s.p && r.s.cfg.run && r.s.cfg.holdoff == 0
            && r.s.cap.pipe == 12 && r.s.cap.mem == [10, 11] && r.s.cap.primed && r.s.cap.waddr == 0
            && !r.s.cap.triggered && !r.s.cap.stopped && !r.s.cfg.disable
  {
    var r1 := Step(Start(s), Sample(true, false, 10));
    var r2 := Step(r1, Sample(true, false, 11));
    assert r1.s.cap.pipe == 10 && r1.s.cap.waddr == 0 && r1.s.cfg.run;
    assert r2.s.cap.pipe == 11 && r2.s.cap.mem[0] == 10;
  }

  /** A trigger with a sample, and a clock without one. */
  lemma StopsEarly(r: Run)
    requires Ok(r.s) && r.s.p.size == 2 && r.s.cfg.run && r.s.cfg.holdoff == 0
    requires r.s.cap.mem == [10, 11] && r.s.cap.waddr == 0 && r.s.cap.pipe == 12 && r.s.cap.primed
    requires !r.s.cap.triggered && !r.s.cap.stopped && !r.s.cfg.disable
    ensures var n := Step(Step(r, Sample(true, true, 13)), Sample(false, false, 14));
            n.s.cfg.run && n.s.cap.stopped && n.mark == 13 && Window(n.s.cap) == [11, 12]
  {
    var n := Step(r, Sample(true, true, 13));
    assert n.s.cap.pipe == 13 && n.s.cap.mem == [12, 11] && n.s.cap.triggered && n.s.cap.waddr == 1;
  }

  /**
   * A two-word memory and no holdoff: five samples, the last with the trigger,
   * then a clock without one.  The scope stops with the triggering sample still
   * in the pipe, and it is nowhere in the memory.
   */
  lemma MisplacedTrigger(s: State)
    requires Initial(s) && s.p.size == 2 && s.cfg.holdoff == 0
    ensures var r3 := Step(Step(Step(Start(s), Sample(true, false, 10)), Sample(true, false, 11)), Sample(true, false, 12));
            var r := Step(Step(r3, Sample(true, true, 13)), Sample(false, false, 14));
            r.s.cfg.run && r.s.cap.stopped && r.mark == 13 && Window(r.s.cap) == [11, 12]
  {
    ThreeSamples(s);
    StopsEarly(Step(Step(Step(Start(s), Sample(true, false, 10)), Sample(true, false, 11)), Sample(true, false, 12)));
  }

  const READ := Input(false, false, 0, true, true, false, true, 0)

  /** A control write that keeps the scope running. */
  const CLEAR := Input(false, false, 0, true, true, true, false, 0x8000_0000)

  /** The scope of `MisplacedTrigger`, stopped with 11 and 12 in its memory, after one read. */
  function ReadOnce(s: State): Run
    requires Initial(s) && s.p.size == 2 && s.cfg.holdoff == 0
  {
    var r3 := Step(Step(Step(Start(s), Sample(true, false, 10)), Sample(true, false, 11)), Sample(true, false, 12));
    Step(Step(Step(r3, Sample(true, true, 13)), Sample(false, false, 14)), READ)
  }

  /** Cleared and read at once, it answers 12, though the oldest sample is 11. */
  lemma ReadsStale(s: State)
    requires Initial(s) && s.p.size == 2 && s.cfg.holdoff == 0
    ensures var asked := Step(ReadOnce(s), CLEAR);
            asked.nreads == 0 && Window(asked.s.cap) == [11, 12]
            && Step(Step(asked, READ), READ).s.rd.busData == 12
  {
    MisplacedTrigger(s);
    var r3 := Step(Step(Step(Start(s), Sample(true, false, 10)), Sample(true, false, 11)), Sample(true, false, 12));
    var r5 := Step(Step(r3, Sample(true, true, 13)), Sample(false, false, 14));
    assert r5.s.rd.raddr == 0 && Window(r5.s.cap) == [11, 12];
    var r := Step(r5, READ);
    assert r.s.rd.raddr == 1 && r.s.cap.mem == r5.s.cap.mem && r.s.cap.waddr == r5.s.cap.waddr;
    StaleRead(r, CLEAR, READ, READ);
  }

  // The status word as the host unpacks it.

  /** The host's mask and shift of the length and holdoff fields, and its stopped and triggered test. */
  function LengthField(v: Word32): nat { (v / 0x10_0000) % 32 }

  function HoldoffField(v: Word32): nat { v % 0x10_0000 }

  predicate ReadyField(v: Word32) { (v / 0x2000_0000) % 4 == 3 }

  lemma ControlFields(s: State)
    requires Ok(s)
    ensures LengthField(Control(s)) == s.p.lg
    ensures HoldoffField(Control(s)) == s.cfg.holdoff
    ensures ReadyField(Control(s)) <==> s.cap.stopped && s.cap.triggered
  {
    Unpack(HighFlags(s), LowFlags(s), s.p.lg, s.cfg.holdoff);
  }

  lemma Unpack(high: nat, low: nat, lg: nat, holdoff: nat)
    requires high < 8 && low < 16 && lg < 32 && holdoff < 0x10_0000
    ensures var v := high * 0x2000_0000 + low * 0x200_0000 + lg * 0x10_0000 + holdoff;
            LengthField(v) == lg && HoldoffField(v) == holdoff && (ReadyField(v) <==> high % 4 == 3)
  {
    var v := high * 0x2000_0000 + low * 0x200_0000 + lg * 0x10_0000 + holdoff;
    assert v / 0x10_0000 == high * 0x200 + low * 32 + lg;
    assert v / 0x2000_0000 == high;
  }

  class Scope {
    const p: Params
    const mem: array<Word32>
    /** The configuration and bus-side registers. */
    var cfg: Config
    var rd: Readout
    // The capture registers.
    var triggered: bool
    var primed: bool
    var stopped: bool
    var counter: nat
    var waddr: nat
    var pipe: Word32

    function Cap(): Capture
      reads this, mem
    {
      Capture(triggered, primed, stopped, counter, waddr, pipe, mem[..])
    }

    function Regs(): State
      reads this, mem
    {
      State(p, cfg, Cap(), rd)
    }

    constructor (p: Params, holdoff: nat)
      requires p.Ok() && holdoff < p.holdoffs
      ensures Initial(Regs()) && Regs().p == p && Regs().cfg.holdoff == holdoff && fresh(mem)
    {
      this.p := p;
      mem := new Word32[p.size];
      cfg := Config(false, false, false, holdoff);
      triggered, primed, stopped, counter, waddr := false, false, false, 0, 0;
      pipe := *;
      var readAddress, nxtMem, busData := *, *, *;
      rd := Readout(0, readAddress, 0, nxtMem, false, false, busData, false);
    }

    /** The always block of br_config and br_holdoff. */
    static method Configure(p: Params, c: Config, i: Input) returns (n: Config)
      requires p.Ok()
      ensures n == NextConfig(p, c, i)
    {
      n := c;
      if WritesControl(i) {
        n := n.(manual := (i.wdata / 0x800_0000) % 2 == 1, disable := (i.wdata / 0x400_0000) % 2 == 1);
        if !KeepsRunning(i) && c.run {
          n := n.(holdoff := Holdoff(p, i.wdata));
        }
      }
      if !c.run {
        n := n.(run := true);
      } else if WritesControl(i) && !KeepsRunning(i) {
        n := n.(run := false);
      }
    }

    /** The always blocks of dr_triggered, counter and dr_stopped. */
    static method Trigger(p: Params, c: Config, a: Capture, i: Input)
      returns (triggered: bool, counter: nat, stopped: bool)
      requires InRange(p, a)
      ensures var n := NextCapture(p, c, a, i);
              triggered == n.triggered && counter == n.counter && stopped == n.stopped
    {
      triggered, counter, stopped := a.triggered, a.counter, a.stopped;
      if !c.run {
        triggered := false;
      } else if i.ce && a.primed && ((i.trigger && !c.disable) || c.manual) {
        triggered := true;
      }
      if !c.run {
        counter := 0;
      } else if i.ce && a.triggered && !a.stopped {
        counter := Inc(a.counter, p.holdoffs);
      }
      if !a.triggered || !c.run {
        stopped := false;
      } else if !a.stopped {
        stopped := a.counter >= c.holdoff;
      }
    }

    /** The always block of waddr and dr_primed. */
    static method WriteAddress(p: Params, c: Config, a: Capture, i: Input) returns (waddr: nat, primed: bool)
      requires InRange(p, a)
      ensures waddr == NextCapture(p, c, a, i).waddr && primed == NextCapture(p, c, a, i).primed
    {
      waddr, primed := a.waddr, a.primed;
      if !c.run {
        waddr, primed := 0, false;
      } else if i.ce && !a.stopped {
        waddr := Inc(a.waddr, p.size);
        if !a.primed {
          primed := a.waddr == p.size - 1;
        }
      }
    }

    /** The bus side: read address, its look-ahead, the memory read, acknowledgement and data. */
    static method Respond(s: State, i: Input) returns (n: Readout)
      requires Ok(s)
      ensures n == NextReadout(s, i)
    {
      var raddr := s.rd.raddr;
      if !s.cfg.run || WritesControl(i) {
        raddr := 0;
      } else if ReadsData(i) && s.cap.stopped {
        raddr := Inc(raddr, s.p.size);
      }
      var thisAddr := Add(s.rd.raddr, s.cap.waddr, s.p.size);
      if ReadsData(i) {
        thisAddr := Inc(thisAddr, s.p.size);
      }
      var busData := s.rd.nxtMem;
      if !s.rd.readAddress {
        busData := Control(s);
      } else if !s.cap.stopped {
        busData := i.data;
      }
      n := Readout(
        raddr, i.adr, thisAddr, s.cap.mem[s.rd.thisAddr], i.stb, s.rd.preAck && i.cyc, busData,
        s.cfg.run && s.cap.stopped && !s.cfg.disable);
    }

    /** All next values but the memory's, from the registers as they stand. */
    static method NextValues(s: State, i: Input) returns (c: Config, a: Capture, r: Readout)
      requires Ok(s)
      ensures c == NextConfig(s.p, s.cfg, i) && r == NextReadout(s, i)
      ensures a == NextCapture(s.p, s.cfg, s.cap, i).(mem := s.cap.mem)
    {
      c := Configure(s.p, s.cfg, i);
      r := Respond(s, i);
      var triggered, counter, stopped := Trigger(s.p, s.cfg, s.cap, i);
      var waddr, primed := WriteAddress(s.p, s.cfg, s.cap, i);
      a := Capture(triggered, primed, stopped, counter, waddr, if i.ce then i.data else s.cap.pipe, s.cap.mem);
    }

    /** The write into the memory. */
    method Store(i: Input)
      requires waddr < mem.Length
      modifies mem
      ensures mem[..] == if i.ce && !stopped then old(mem[..])[waddr := pipe] else old(mem[..])
    {
      if i.ce && !stopped {
        mem[waddr] := pipe;
      }
    }

    method Step(i: Input)
      requires Ok(Regs())
      modifies this, mem
      ensures Regs() == Next(old(Regs()), i)
    {
      var c, a, r := NextValues(Regs(), i);
      Store(i);
      triggered, primed, stopped, counter := a.triggered, a.primed, a.stopped, a.counter;
      waddr, pipe := a.waddr, a.pipe;
      cfg, rd := c, r;
    }
  }
}
