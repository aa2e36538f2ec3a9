/**
 * testbus: the receiver, hbbus and the slaves wired together.  hbbus ignores the
 * executor's busy signal; this shows that it may.  Only what decides when a
 * request is answered is modelled of the slaves.
 */
module TestBus {
  import opened HexWord
  import opened SerialLine
  import RxUart
  import TxUart
  import UartLink
  import UartSimRx
  import HbBus
  import HbExec
  import HbDechex
  import HbInts
  import CommandStream

  // Address decoding.

  datatype Slave = Sample | Scope | Memory | None

  function Selected(a: Word30): Slave {
    if a / 16 == 0x081 then Sample
    else if a / 16 == 0x082 then Scope
    else if a / 4096 == 1 then Memory
    else None
  }

  /** The acknowledgement and error registers of the slaves and of the bus. */
  datatype Acks = Acks(
    sample: bool, scopeFirst: bool, scope: bool, memoryFirst: bool, memory: bool, ack: bool, err: bool)

  const SILENT := Acks(false, false, false, false, false, false, false)

  function NextAcks(k: Acks, cyc: bool, stb: bool, a: Word30): Acks {
    Acks(
      stb && Selected(a) == Sample,
      stb && Selected(a) == Scope, k.scopeFirst && cyc,
      stb && Selected(a) == Memory, k.memoryFirst && cyc,
      k.sample || (k.scope && cyc) || k.memory,
      stb && Selected(a) == None)
  }

  /** What the rest of the world does on a clock: the data read, the interrupt, and the transmitter. */
  datatype World = World(rdata: Word32, interrupt: bool, txBusy: bool)

  /** The number whose bits are `b`, least significant first. */
  function Value(b: seq<bool>): (v: nat)
    ensures v < Power(|b|)
  {
    if b == [] then 0 else (if b[0] then 1 else 0) + 2 * Value(b[1..])
  }

  function Power(n: nat): nat { if n == 0 then 1 else 2 * Power(n - 1) }

  /** The byte as hbbus takes it. */
  function AsByte(b: Byte): Byte8 {
    assert Power(8) == 256;
    Value(b)
  }

  /** The low `n` bits of `v`, least significant first. */
  function BitsOf(v: nat, n: nat): (b: seq<bool>)
    ensures |b| == n
  {
    if n == 0 then [] else [v % 2 == 1] + BitsOf(v / 2, n - 1)
  }

  lemma Parity(bit: nat, rest: nat)
    requires bit < 2
    ensures (bit + 2 * rest) % 2 == bit && (bit + 2 * rest) / 2 == rest
  {}

  /** The number a line's bits stand for has those bits. */
  lemma {:induction false} BitsOfValue(b: seq<bool>)
    ensures BitsOf(Value(b), |b|) == b
  {
    if b != [] {
      BitsOfValue(b[1..]);
      Parity(if b[0] then 1 else 0, Value(b[1..]));
      assert b == [b[0]] + b[1..];
    }
  }

  lemma {:induction false} ValueOfBits(v: nat, n: nat)
    requires v < Power(n)
    ensures Value(BitsOf(v, n)) == v
  {
    if n > 0 {
      ValueOfBits(v / 2, n - 1);
      assert BitsOf(v, n)[1..] == BitsOf(v / 2, n - 1);
    }
  }

  /** A character as the line carries it. */
  function OnLine(c: Byte8): Byte { BitsOf(c, 8) }

  /** What hbbus takes are the characters whose bits were on the line. */
  lemma ByteReceived(c: Byte8)
    ensures AsByte(OnLine(c)) == c
  {
    assert Power(8) == 256;
    ValueOfBits(c, 8);
  }

  /** hbbus and the slaves, with the clocks since the last byte came in and those the executor has been busy. */
  datatype Loop = Loop(bus: HbBus.Run, acks: Acks, age: nat, busy: nat)

  function BusIn(k: Acks, rx: RxUart.State, w: World): HbBus.Input {
    HbBus.Input(rx.wr, AsByte(rx.out), false, k.ack, k.err, w.rdata, w.interrupt, w.txBusy)
  }

  function Next(l: Loop, rx: RxUart.State, w: World): (n: Loop)
    requires HbExec.Inv(l.bus.ex.s)
    ensures HbExec.Inv(n.bus.ex.s)
  {
    var ex := l.bus.ex.s;
    var bus := HbBus.Step(l.bus, BusIn(l.acks, rx, w));
    Loop(bus, NextAcks(l.acks, ex.cyc, ex.stb, ex.addr),
         if rx.wr then 0 else l.age + 1,
         if HbExec.Busy(bus.ex.s) then l.busy + 1 else 0)
  }

  /** `lp` is the loop on every clock from power-up, fed by the receiver `rx`; `gap` stands for no byte yet. */
  ghost predicate LoopRuns(gap: nat, rx: nat -> RxUart.State, world: nat -> World, lp: nat -> Loop) {
    && HbBus.Initial(lp(0).bus.S()) && HbExec.Inv(lp(0).bus.ex.s)
    && lp(0) == Loop(HbBus.Start(lp(0).bus.S()), SILENT, gap, 0)
    && forall t: nat :: LoopSteps(rx, world, lp, t)
  }

  predicate LoopSteps(rx: nat -> RxUart.State, world: nat -> World, lp: nat -> Loop, t: nat) {
    HbExec.Inv(lp(t).bus.ex.s) && lp(t + 1) == Next(lp(t), rx(t), world(t))
  }

  /** How far a request has got: each slave answers on a known clock, four after the command at the latest. */
  predicate OnTheWay(k: Acks, ex: HbExec.State, busy: nat) {
    && (busy == 0 <==> !ex.cyc) && (ex.stb <==> busy == 1)
    && (if busy <= 1 then k == SILENT
        else if busy == 2 then
          || k == SILENT.(sample := true) || k == SILENT.(scopeFirst := true)
          || k == SILENT.(memoryFirst := true) || k == SILENT.(err := true)
        else if busy == 3 then
          k == SILENT.(scope := true) || k == SILENT.(memory := true) || k == SILENT.(ack := true)
        else busy == 4 && k == SILENT.(ack := true))
  }

  /** Each stage of the command path works for a known time after a byte. */
  predicate Paced(front: CommandStream.State, ex: HbExec.State, k: Acks, age: nat, busy: nat) {
    && HbExec.Inv(ex) && OnTheWay(k, ex, busy)
    && (front.dh.reset ==> busy == 0)
    && (front.dh.stb ==> age == 0)
    && (front.pk.stb ==> age == 1)
    && (busy > 0 ==> age == busy + 1)
  }

  function ExecIn(front: CommandStream.State, k: Acks, rdata: Word32): HbExec.Input {
    HbExec.Input(front.dh.reset, front.pk.stb, front.pk.out, false, k.ack, k.err, rdata)
  }

  /** A request is taken at once, and its one answer comes while the executor waits for it. */
  lemma Answered(front: CommandStream.State, ex: HbExec.State, k: Acks, age: nat, busy: nat, rdata: Word32)
    requires Paced(front, ex, k, age, busy)
    ensures var ex' := HbExec.Next(ex, ExecIn(front, k, rdata));
            HbExec.Inv(ex') && OnTheWay(NextAcks(k, ex.cyc, ex.stb, ex.addr), ex', if ex'.cyc then busy + 1 else 0)
    ensures HbExec.Next(ex, ExecIn(front, k, rdata)).cyc ==> busy > 0 || (front.pk.stb && !front.dh.reset)
  {
    HbExec.InvStep(ex, ExecIn(front, k, rdata));
  }

  /** The pace is kept as long as bytes come seven clocks apart or more. */
  lemma PaceKept(front: CommandStream.State, ex: HbExec.State, k: Acks, age: nat, busy: nat,
                 i: HbDechex.Input, rdata: Word32)
    requires Paced(front, ex, k, age, busy) && (i.stb ==> age >= 6)
    ensures var ex' := HbExec.Next(ex, ExecIn(front, k, rdata));
            Paced(CommandStream.Next(front, i), ex', NextAcks(k, ex.cyc, ex.stb, ex.addr),
                  if i.stb then 0 else age + 1, if ex'.cyc then busy + 1 else 0)
    ensures !(front.pk.stb && HbExec.Busy(ex))
  {
    Answered(front, ex, k, age, busy, rdata);
  }

  /** The executor has taken every word packed, and the packer has done the text received. */
  ghost predicate AllTaken(r: HbBus.Run) {
    !r.missed && r.ex.taken == r.cmd.packed && exists done :: CommandStream.Follows(r.cmd, done)
  }

  ghost predicate LoopPaced(l: Loop) {
    Paced(l.bus.cmd.s, l.bus.ex.s, l.acks, l.age, l.busy) && AllTaken(l.bus)
  }

  /** A word packed while the executor is free is taken. */
  lemma TakenStep(r: HbBus.Run, i: HbBus.Input)
    requires HbExec.Inv(r.ex.s) && AllTaken(r) && !(r.cmd.s.pk.stb && HbExec.Busy(r.ex.s))
    ensures AllTaken(HbBus.Step(r, i))
  {
    HbBus.CommandStep(r, i);
    if !r.cmd.s.dh.reset {
      HbBus.HandsOn(r, i);
    }
  }

  lemma LoopKeepsPace(l: Loop, rx: RxUart.State, w: World)
    requires LoopPaced(l) && (rx.wr ==> l.age >= 6)
    ensures LoopPaced(Next(l, rx, w))
  {
    var i := BusIn(l.acks, rx, w);
    PaceKept(l.bus.cmd.s, l.bus.ex.s, l.acks, l.age, l.busy, HbBus.RxIn(i), w.rdata);
    var n := HbBus.Step(l.bus, i);
    assert n.S() == HbBus.Next(l.bus.S(), i);
    TakenStep(l.bus, i);
  }

  lemma AgeStep(l: Loop, rx: RxUart.State, w: World)
    requires HbExec.Inv(l.bus.ex.s)
    ensures Next(l, rx, w).age == if rx.wr then 0 else l.age + 1
  {}

  lemma AgeAt(gap: nat, rx: nat -> RxUart.State, world: nat -> World, lp: nat -> Loop, t: nat)
    requires LoopRuns(gap, rx, world, lp)
    ensures lp(t + 1).age == if rx(t).wr then 0 else lp(t).age + 1
  {
    assert LoopSteps(rx, world, lp, t);
    AgeStep(lp(t), rx(t), world(t));
  }

  /** The age of the loop counts back to a byte, unless none has come yet. */
  lemma {:induction false} AgeCountsBack(gap: nat, rx: nat -> RxUart.State, world: nat -> World, lp: nat -> Loop, t: nat)
    requires LoopRuns(gap, rx, world, lp)
    ensures lp(t).age >= gap || (lp(t).age < t && rx(t - 1 - lp(t).age).wr)
  {
    if t > 0 {
      AgeCountsBack(gap, rx, world, lp, t - 1);
      AgeAt(gap, rx, world, lp, t - 1);
    }
  }

  /** A byte finds the one before it long gone. */
  lemma BytesFarApart(p: RxUart.Params, line: Line, rx: nat -> RxUart.State, world: nat -> World, lp: nat -> Loop, t: nat)
    requires RxUart.Runs(p, line, rx) && LoopRuns(9 * p.baud, rx, world, lp) && rx(t).wr
    ensures lp(t).age >= 9 * p.baud
  {
    AgeCountsBack(9 * p.baud, rx, world, lp, t);
    if lp(t).age < 9 * p.baud {
      RxUart.BytesApart(p, line, rx, t - 1 - lp(t).age, t);
    }
  }

  lemma {:induction false} StaysPaced(p: RxUart.Params, line: Line, rx: nat -> RxUart.State,
                                      world: nat -> World, lp: nat -> Loop, t: nat)
    requires RxUart.Runs(p, line, rx) && LoopRuns(9 * p.baud, rx, world, lp)
    ensures LoopPaced(lp(t))
  {
    if t == 0 {
      assert CommandStream.Follows(lp(0).bus.cmd, []);
    } else {
      StaysPaced(p, line, rx, world, lp, t - 1);
      if rx(t - 1).wr {
        BytesFarApart(p, line, rx, world, lp, t - 1);
      }
      LoopKeepsPace(lp(t - 1), rx(t - 1), world(t - 1));
      assert LoopSteps(rx, world, lp, t - 1);
    }
  }

  /**
   * No command is dropped: whatever is on the serial line, with any bit time the
   * receiver allows, no packed word meets a busy executor, because every request
   * is answered within four clocks, once, and only while the executor waits.  So
   * since the last reset the executor has taken what the parser finds in `done`,
   * the text received short of a last character still in hbdechex, but for a word
   * just packed.
   */
  lemma NoCommandDropped(p: RxUart.Params, line: Line, rx: nat -> RxUart.State,
                         world: nat -> World, lp: nat -> Loop, t: nat)
    returns (done: seq<Byte7>)
    requires RxUart.Runs(p, line, rx) && LoopRuns(9 * p.baud, rx, world, lp)
    ensures var l := lp(t);
            && !l.bus.missed && l.busy <= 4 && !(l.bus.cmd.s.pk.stb && HbExec.Busy(l.bus.ex.s))
            && (l.acks.ack || l.acks.err ==>
                  l.bus.ex.s.cyc && !l.bus.ex.s.stb && !(l.acks.ack && l.acks.err))
    ensures var r := lp(t).bus;
            && CommandStream.Follows(r.cmd, done)
            && r.ex.taken + (if r.cmd.s.pk.stb then [r.cmd.s.pk.out] else []) == CommandStream.Parse(done).words
  {
    StaysPaced(p, line, rx, world, lp, t);
    done :| CommandStream.Follows(lp(t).bus.cmd, done);
  }

  // From the line to the executor.

  /** The characters in the bytes handed on by the receiver. */
  function CharsIn(bytes: seq<Byte>): seq<Byte7> {
    seq(|bytes|, i requires 0 <= i < |bytes| => CharIn(bytes[i]))
  }

  /** `text` as the bytes a line carries. */
  function BytesOf(text: seq<Byte7>): seq<Byte> {
    seq(|text|, i requires 0 <= i < |text| => OnLine(text[i]))
  }

  /** The character hbbus makes of a byte from the line. */
  function CharIn(b: Byte): Byte7 { HbDechex.Low7(AsByte(b)) }

  lemma CharComesBack(c: Byte7)
    ensures CharIn(OnLine(c)) == c
  {
    ByteReceived(c);
  }

  lemma CharsComeBack(text: seq<Byte7>)
    ensures CharsIn(BytesOf(text)) == text
  {
    hide CharIn, OnLine;
    forall i | 0 <= i < |text| ensures CharsIn(BytesOf(text))[i] == text[i] {
      CharComesBack(text[i]);
    }
  }

  lemma TextStep(l: Loop, rx: RxUart.State, w: World)
    requires HbExec.Inv(l.bus.ex.s)
    ensures var c, n := CharIn(rx.out), Next(l, rx, w).bus.cmd;
            && n.text == (if l.bus.cmd.s.dh.reset then [] else l.bus.cmd.text) + (if rx.wr then [c] else [])
            && n.s.dh.reset == (rx.wr && c == HbDechex.RESET_CHAR)
  {}

  lemma CharsSnoc(bytes: seq<Byte>, b: Byte)
    ensures CharsIn(bytes + [b]) == CharsIn(bytes) + [CharIn(b)]
  {}

  lemma NoResetSnoc(text: seq<Byte7>, c: Byte7)
    ensures CommandStream.NoReset(text + [c]) <==> CommandStream.NoReset(text) && c != HbDechex.RESET_CHAR
  {
    assert (text + [c])[|text|] == c;
    assert forall k :: 0 <= k < |text| ==> (text + [c])[k] == text[k];
  }

  lemma ReceivedNext(rx: nat -> RxUart.State, t: nat)
    ensures RxUart.Received(rx, t + 1)
         == if rx(t).wr then RxUart.Received(rx, t) + [rx(t).out] else RxUart.Received(rx, t)
  {}

  lemma TextNext(gap: nat, rx: nat -> RxUart.State, world: nat -> World, lp: nat -> Loop, t: nat)
    requires LoopRuns(gap, rx, world, lp)
    ensures var c, cmd, n := CharIn(rx(t).out), lp(t).bus.cmd, lp(t + 1).bus.cmd;
            && n.text == (if cmd.s.dh.reset then [] else cmd.text) + (if rx(t).wr then [c] else [])
            && n.s.dh.reset == (rx(t).wr && c == HbDechex.RESET_CHAR)
  {
    assert LoopSteps(rx, world, lp, t);
    TextStep(lp(t), rx(t), world(t));
  }

  lemma TextStarts(gap: nat, rx: nat -> RxUart.State, world: nat -> World, lp: nat -> Loop)
    requires LoopRuns(gap, rx, world, lp)
    ensures lp(0).bus.cmd.text == [] == CharsIn(RxUart.Received(rx, 0))
  {}

  /** Until a reset character comes the text hbbus has received is that of the bytes handed on. */
  lemma {:induction false} TextReceived(gap: nat, rx: nat -> RxUart.State, world: nat -> World, lp: nat -> Loop, t: nat)
    requires LoopRuns(gap, rx, world, lp) && CommandStream.NoReset(CharsIn(RxUart.Received(rx, t)))
    ensures lp(t).bus.cmd.text == CharsIn(RxUart.Received(rx, t)) && (t > 0 ==> !lp(t).bus.cmd.s.dh.reset)
  {
    hide *;
    TextStarts(gap, rx, world, lp);
    if t > 0 {
      var before, now := RxUart.Received(rx, t - 1), rx(t - 1);
      ReceivedNext(rx, t - 1);
      CharsSnoc(before, now.out);
      NoResetSnoc(CharsIn(before), CharIn(now.out));
      TextReceived(gap, rx, world, lp, t - 1);
      TextNext(gap, rx, world, lp, t - 1);
    }
  }

  /** Two clocks without a byte, and the packer has nothing left to hand on. */
  lemma HandedOn(p: RxUart.Params, line: Line, rx: nat -> RxUart.State, world: nat -> World, lp: nat -> Loop, t: nat)
    requires RxUart.Runs(p, line, rx) && LoopRuns(9 * p.baud, rx, world, lp)
    requires !rx(t).wr && !rx(t + 1).wr
    ensures var cmd := lp(t + 2).bus.cmd; !cmd.s.dh.stb && !cmd.s.pk.stb
  {
    AgeAt(9 * p.baud, rx, world, lp, t);
    AgeAt(9 * p.baud, rx, world, lp, t + 1);
    StaysPaced(p, line, rx, world, lp, t + 2);
  }

  /** What the receiver has handed on is still that two clocks later, if it hands on nothing meanwhile. */
  lemma NothingMore(rx: nat -> RxUart.State, t: nat)
    requires !rx(t).wr && !rx(t + 1).wr
    ensures RxUart.Received(rx, t + 2) == RxUart.Received(rx, t)
  {
    assert RxUart.Received(rx, t + 1) == RxUart.Received(rx, t);
  }

  /**
   * From the line to the executor: if a line has carried, at any bit time within
   * the receiver's tolerance, the text a host prints for the commands `ws`, then
   * two clocks after the last byte the executor has taken exactly `ws`.
   */
  lemma LineExecutes(p: RxUart.Params, ct: nat, lag: nat, line: Line, sent: Feed, rx: nat -> RxUart.State,
                     world: nat -> World, lp: nat -> Loop, ws: seq<CommandStream.Command>, t: nat)
    requires RxUart.Runs(p, line, rx) && LoopRuns(9 * p.baud, rx, world, lp)
    requires Carries(ct, lag, line, sent) && RxUart.InTolerance(p, ct)
    requires SentBefore(sent, t - RxUart.Delay(p, lag)) == BytesOf(CommandStream.PrintAll(ws) + [CommandStream.NEWLINE])
    requires !rx(t).wr && !rx(t + 1).wr
    ensures lp(t + 2).bus.ex.taken == ws
  {
    hide *;
    var text := CommandStream.PrintAll(ws) + [CommandStream.NEWLINE];
    RxUart.Receives(p, ct, lag, line, sent, rx, t);
    NothingMore(rx, t);
    CharsComeBack(text);
    LineNoReset(ws);
    TextReceived(9 * p.baud, rx, world, lp, t + 2);
    HandedOn(p, line, rx, world, lp, t);
    TakenAtRest(p, line, rx, world, lp, t + 2);
    CommandStream.CommandRoundTrip(ws);
  }

  lemma LineNoReset(ws: seq<CommandStream.Command>)
    ensures CommandStream.NoReset(CommandStream.PrintAll(ws) + [CommandStream.NEWLINE])
  {
    CommandStream.PrintAllNoReset(ws);
  }

  lemma TakenAtRest(p: RxUart.Params, line: Line, rx: nat -> RxUart.State, world: nat -> World, lp: nat -> Loop, t: nat)
    requires RxUart.Runs(p, line, rx) && LoopRuns(9 * p.baud, rx, world, lp)
    requires !lp(t).bus.cmd.s.dh.stb && !lp(t).bus.cmd.s.pk.stb
    ensures lp(t).bus.ex.taken == CommandStream.Parse(lp(t).bus.cmd.text).words
  {
    var done := NoCommandDropped(p, line, rx, world, lp, t);
    assert lp(t).bus.ex.taken + [] == lp(t).bus.ex.taken;
  }

  // From the port to the line.

  /** The transmitter is offered what hbbus presents, and hbbus sees when it is busy. */
  ghost predicate Transmits(world: nat -> World, lp: nat -> Loop, offers: Feed, ttr: nat -> TxUart.State) {
    forall t: nat :: TransmitsAt(world, lp, offers, ttr, t)
  }

  predicate TransmitsAt(world: nat -> World, lp: nat -> Loop, offers: Feed, ttr: nat -> TxUart.State, t: nat) {
    var nl := lp(t).bus.ch.nl.s;
    world(t).txBusy == ttr(t).busy && offers(t) == if nl.stb then Send(OnLine(nl.byte)) else Nothing
  }

  lemma DeliveredNext(gap: nat, rx: nat -> RxUart.State, world: nat -> World, lp: nat -> Loop, t: nat)
    requires LoopRuns(gap, rx, world, lp) && !lp(t).bus.cmd.s.dh.reset
    ensures var nl, d := lp(t).bus.ch.nl.s, lp(t).bus.ch.Delivered();
            lp(t + 1).bus.ch.Delivered() == if nl.stb && !world(t).txBusy then d + [nl.byte] else d
  {
    assert LoopSteps(rx, world, lp, t);
    HbBus.AtThePins(lp(t).bus, BusIn(lp(t).acks, rx(t), world(t)));
  }

  lemma NothingDelivered(gap: nat, rx: nat -> RxUart.State, world: nat -> World, lp: nat -> Loop)
    requires LoopRuns(gap, rx, world, lp)
    ensures lp(0).bus.ch.Delivered() == lp(1).bus.ch.Delivered() == [] && !lp(0).bus.ch.nl.s.stb
  {
    assert LoopSteps(rx, world, lp, 0);
  }

  lemma BytesSnoc(text: seq<Byte7>, c: Byte7)
    ensures BytesOf(text + [c]) == BytesOf(text) + [OnLine(c)]
  {}

  /** Until a reset character comes the transmitter accepts exactly the text hbbus delivers. */
  lemma {:induction false} AcceptsDelivered(gap: nat, rx: nat -> RxUart.State, world: nat -> World, lp: nat -> Loop,
                                            offers: Feed, ttr: nat -> TxUart.State, line: Line, sent: Feed, t: nat)
    requires LoopRuns(gap, rx, world, lp) && Transmits(world, lp, offers, ttr)
    requires TxUart.Drives(offers, ttr, line, sent)
    requires CommandStream.NoReset(CharsIn(RxUart.Received(rx, t)))
    ensures SentBefore(sent, t) == BytesOf(lp(t).bus.ch.Delivered())
  {
    NothingDelivered(gap, rx, world, lp);
    if t == 0 {
      NothingSent(sent);
    } else {
      hide *;
      var u := t - 1;
      ReceivedNext(rx, u);
      CharsSnoc(RxUart.Received(rx, u), rx(u).out);
      NoResetSnoc(CharsIn(RxUart.Received(rx, u)), CharIn(rx(u).out));
      AcceptsDelivered(gap, rx, world, lp, offers, ttr, line, sent, u);
      TextReceived(gap, rx, world, lp, u);
      if u > 0 {
        DeliveredNext(gap, rx, world, lp, u);
      }
      AcceptsNext(world, lp, offers, ttr, line, sent, u);
      BytesSnoc(lp(u).bus.ch.Delivered(), lp(u).bus.ch.nl.s.byte);
    }
  }

  lemma NothingSent(sent: Feed)
    ensures SentBefore(sent, 0) == BytesOf([])
  {}

  lemma AcceptsNext(world: nat -> World, lp: nat -> Loop, offers: Feed, ttr: nat -> TxUart.State,
                    line: Line, sent: Feed, t: nat)
    requires Transmits(world, lp, offers, ttr) && TxUart.Drives(offers, ttr, line, sent)
    ensures var nl := lp(t).bus.ch.nl.s;
            SentBefore(sent, t + 1) == SentBefore(sent, t) + (if nl.stb && !world(t).txBusy then [OnLine(nl.byte)] else [])
  {
    assert TransmitsAt(world, lp, offers, ttr, t);
    assert sent(t) == TxUart.Accepted(offers, ttr, t);
  }

  /**
   * From the port to the host: behind the transmitter, within the tolerance of the
   * bit times, the host's end of the line has received exactly the text that hbbus
   * had delivered one fixed delay earlier.
   */
  lemma HostHears(gap: nat, rx: nat -> RxUart.State, world: nat -> World, lp: nat -> Loop,
                  tp: TxUart.Params, offers: Feed, ttr: nat -> TxUart.State, line: Line, sent: Feed,
                  c: nat, rtr: nat -> UartSimRx.Rx, t: nat)
    requires LoopRuns(gap, rx, world, lp) && Transmits(world, lp, offers, ttr)
    requires TxUart.Runs(tp, offers, ttr) && TxUart.Drives(offers, ttr, line, sent)
    requires UartSimRx.RxRuns(c, line, rtr) && UartSimRx.InTolerance(c, tp.baud)
    requires CommandStream.NoReset(CharsIn(RxUart.Received(rx, t)))
    ensures CharsIn(UartSimRx.Received(rtr, t + UartSimRx.Delay(c, 1))) == lp(t).bus.ch.Delivered()
  {
    hide *;
    UartLink.TargetToSimulator(tp, offers, ttr, line, sent, c, rtr, t + UartSimRx.Delay(c, 1));
    AcceptsDelivered(gap, rx, world, lp, offers, ttr, line, sent, t);
    CharsComeBack(lp(t).bus.ch.Delivered());
  }

  /** What the slaves and the interrupt line bring reaches the executor and the response chain. */
  lemma WorldReaches(l: Loop, rx: RxUart.State, w: World)
    requires HbExec.Inv(l.bus.ex.s) && !l.bus.cmd.s.dh.reset
    ensures var n := Next(l, rx, w).bus;
            && HbInts.Lines(n.ch.ints.waves) == HbInts.Lines(l.bus.ch.ints.waves) + [w.interrupt]
            && (l.acks.ack && !l.acks.err && l.bus.ex.s.cyc && !l.bus.ex.s.we ==>
                  n.ex.s.rspStb && n.ex.s.rspWord == Word(DATA, w.rdata))
            && (l.acks.err ==> n.ex.s.rspStb && n.ex.s.rspWord == RSP_BUS_ERROR)
  {
    HbBus.WireStep(l.bus, BusIn(l.acks, rx, w));
  }

  // Which slave answers, and when.

  /** A request taken, after `n` more clocks in which the executor waits. */
  function AcksAfter(a: Word30, n: nat): Acks {
    if n == 0 then NextAcks(SILENT, true, true, a) else NextAcks(AcksAfter(a, n - 1), true, false, a)
  }

  /**
   * The sample registers at bytes 0x2040 to 0x207f answer two clocks after the
   * request, the scope at 0x2080 to 0x20bf and the memory at 0x4000 to 0x7fff three,
   * and any other address is an error after one.
   */
  lemma SlavesAnswer(a: Word30)
    ensures var sample, slow := 0x2040 <= 4 * a < 0x2080, 0x2080 <= 4 * a < 0x20c0 || 0x4000 <= 4 * a < 0x8000;
            && (AcksAfter(a, 0).err <==> !sample && !slow) && !AcksAfter(a, 0).ack
            && (AcksAfter(a, 1).ack <==> sample) && !AcksAfter(a, 1).err
            && (AcksAfter(a, 2).ack <==> slow) && !AcksAfter(a, 2).err
  {
    assert AcksAfter(a, 1) == NextAcks(AcksAfter(a, 0), true, false, a);
    assert AcksAfter(a, 2) == NextAcks(AcksAfter(a, 1), true, false, a);
  }
}
