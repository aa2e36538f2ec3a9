/**
 * The sequential machine both bus executors implement: an address register
 * with an increment flag, and one bus transaction per read or write command.
 */
module BusMachine {
  import opened HexWord
  import opened Sequences

  /** A bus request; a read carries no data. */
  datatype Txn = Txn(write: bool, addr: Word30, data: Word32)

  datatype Outcome = Done(data: Word32) | Failed

  /** What a slave answers to the last of a sequence of requests. */
  type Device = seq<Txn> -> Outcome

  datatype Machine = Machine(addr: Word30, inc: bool, txns: seq<Txn>, rsps: seq<Word>)

  // Command payload fields of an address command.

  function AddrField(p: Word32): Word30 { p / 4 }

  predicate IsDifference(p: Word32) { (p / 2) % 2 == 1 }

  predicate Increments(p: Word32) { p % 2 == 0 }

  predicate IsBus(c: Word) { c.kind == DATA || c.kind == ACK }

  function Sum30(a: Word30, b: Word30): Word30 { (a + b) % 0x4000_0000 }

  function NewAddr(addr: Word30, p: Word32): Word30 {
    if IsDifference(p) then Sum30(AddrField(p), addr) else AddrField(p)
  }

  function Advance(addr: Word30, inc: bool): Word30 {
    Sum30(addr, if inc then 1 else 0)
  }

  function Echo(addr: Word30, inc: bool): Word {
    Word(ADDR, addr * 4 + if inc then 0 else 1)
  }

  function Request(addr: Word30, c: Word): Txn {
    Txn(c.kind == ACK, addr, if c.kind == ACK then c.payload else 0)
  }

  function Response(write: bool, o: Outcome): Word {
    match o
    case Failed => RSP_BUS_ERROR
    case Done(data) => if write then RSP_WRITE_ACK else Word(DATA, data)
  }

  /** One command: an address command is echoed, a bus command is answered. */
  function Exec(m: Machine, c: Word, dev: Device): Machine {
    if IsBus(c) then
      var txns := m.txns + [Request(m.addr, c)];
      Machine(Advance(m.addr, m.inc), m.inc, txns, m.rsps + [Response(c.kind == ACK, dev(txns))])
    else if c.kind == ADDR then
      var a, inc := NewAddr(m.addr, c.payload), Increments(c.payload);
      Machine(a, inc, m.txns, m.rsps + [Echo(a, inc)])
    else m
  }

  function ExecAll(m: Machine, cmds: seq<Word>, dev: Device): Machine {
    if cmds == [] then m else Exec(ExecAll(m, cmds[..|cmds| - 1], dev), cmds[|cmds| - 1], dev)
  }

  lemma ExecSnoc(m: Machine, cmds: seq<Word>, c: Word, dev: Device)
    ensures ExecAll(m, cmds + [c], dev) == Exec(ExecAll(m, cmds, dev), c, dev)
  {
    assert (cmds + [c])[..|cmds|] == cmds;
  }

  lemma {:induction false} ExecAppend(m: Machine, a: seq<Word>, b: seq<Word>, dev: Device)
    ensures ExecAll(m, a + b, dev) == ExecAll(ExecAll(m, a, dev), b, dev)
  {
    if b == [] {
      assert a + b == a;
    } else {
      var init, c := b[..|b| - 1], b[|b| - 1];
      ExecAppend(m, a, init, dev);
      assert a + b == (a + init) + [c];
      ExecSnoc(m, a + init, c, dev);
    }
  }

  lemma {:induction false} ResponsesAreBusResponses(m: Machine, cmds: seq<Word>, dev: Device)
    requires forall w <- m.rsps :: IsBusResponse(w)
    ensures forall w <- ExecAll(m, cmds, dev).rsps :: IsBusResponse(w)
  {
    if cmds != [] {
      ResponsesAreBusResponses(m, cmds[..|cmds| - 1], dev);
    }
  }

  // Address commands.

  /** The payload of an address command: a word address, or a difference to be added to the last one. */
  function AddrPayload(a: Word30, difference: bool, inc: bool): Word32 {
    4 * a + (if difference then 2 else 0) + if inc then 0 else 1
  }

  lemma PayloadFields(a: Word30, difference: bool, inc: bool)
    ensures var p := AddrPayload(a, difference, inc);
            AddrField(p) == a && IsDifference(p) == difference && Increments(p) == inc
  {}

  /** A difference is added to the address register, round the end of the address space, and the sum echoed. */
  lemma DifferenceMoves(m: Machine, d: Word30, inc: bool, dev: Device)
    ensures Exec(m, Word(ADDR, AddrPayload(d, true, inc)), dev)
         == var a := (m.addr + d) % 0x4000_0000; Machine(a, inc, m.txns, m.rsps + [Echo(a, inc)])
  {
    PayloadFields(d, true, inc);
  }

  lemma AbsoluteSets(m: Machine, a: Word30, inc: bool, dev: Device)
    ensures Exec(m, Word(ADDR, AddrPayload(a, false, inc)), dev) == Machine(a, inc, m.txns, m.rsps + [Echo(a, inc)])
  {
    PayloadFields(a, false, inc);
  }

  lemma ExecOne(m: Machine, c: Word, dev: Device)
    ensures ExecAll(m, [c], dev) == Exec(m, c, dev)
  {
    ExecSnoc(m, [], c, dev);
    assert [] + [c] == [c];
  }

  lemma AddressesJoin(m: Machine, a: Word30, inc0: bool, d: Word30, inc: bool, dev: Device)
    ensures var first, second := Word(ADDR, AddrPayload(a, false, inc0)), Word(ADDR, AddrPayload(d, true, inc));
            var one := Word(ADDR, AddrPayload((a + d) % 0x4000_0000, false, inc));
            Exec(Exec(m, first, dev), second, dev) == Exec(m.(rsps := m.rsps + [Echo(a, inc0)]), one, dev)
  {
    AbsoluteSets(m, a, inc0, dev);
    DifferenceMoves(Exec(m, Word(ADDR, AddrPayload(a, false, inc0)), dev), d, inc, dev);
    AbsoluteSets(m.(rsps := m.rsps + [Echo(a, inc0)]), (a + d) % 0x4000_0000, inc, dev);
  }

  /** An absolute address and a difference do what one absolute address does, but for the echo of the first. */
  lemma DifferenceAfterAbsolute(m: Machine, a: Word30, inc0: bool, d: Word30, inc: bool, cmds: seq<Word>, dev: Device)
    ensures var sum := (a + d) % 0x4000_0000;
            var two := [Word(ADDR, AddrPayload(a, false, inc0)), Word(ADDR, AddrPayload(d, true, inc))];
            ExecAll(m, two + cmds, dev) ==
            ExecAll(m.(rsps := m.rsps + [Echo(a, inc0)]), [Word(ADDR, AddrPayload(sum, false, inc))] + cmds, dev)
  {
    hide *;
    var first, second := Word(ADDR, AddrPayload(a, false, inc0)), Word(ADDR, AddrPayload(d, true, inc));
    var sum: Word30 := (a + d) % 0x4000_0000;
    var one, m0 := Word(ADDR, AddrPayload(sum, false, inc)), m.(rsps := m.rsps + [Echo(a, inc0)]);
    AddressesJoin(m, a, inc0, d, inc, dev);
    ExecTwo(m, first, second, dev);
    ExecOne(m0, one, dev);
    ExecAppend(m, [first, second], cmds, dev);
    ExecAppend(m0, [one], cmds, dev);
  }

  lemma ExecTwo(m: Machine, c: Word, d: Word, dev: Device)
    ensures ExecAll(m, [c, d], dev) == Exec(Exec(m, c, dev), d, dev)
  {
    ExecSnoc(m, [], c, dev);
    ExecSnoc(m, [c], d, dev);
    assert [] + [c] == [c] && [c] + [d] == [c, d];
  }

  // A machine that puts off the address echo until the address is first used.

  datatype Lazy = Lazy(m: Machine, unsent: bool)

  function ExecLazy(l: Lazy, c: Word, dev: Device): Lazy {
    if IsBus(c) then
      var echo := if l.unsent then [Echo(l.m.addr, l.m.inc)] else [];
      Lazy(Exec(l.m.(rsps := l.m.rsps + echo), c, dev), false)
    else if c.kind == ADDR then
      Lazy(l.m.(addr := NewAddr(l.m.addr, c.payload), inc := Increments(c.payload)), true)
    else l
  }

  function ExecAllLazy(l: Lazy, cmds: seq<Word>, dev: Device): Lazy {
    if cmds == [] then l else ExecLazy(ExecAllLazy(l, cmds[..|cmds| - 1], dev), cmds[|cmds| - 1], dev)
  }

  lemma ExecLazySnoc(l: Lazy, cmds: seq<Word>, c: Word, dev: Device)
    ensures ExecAllLazy(l, cmds + [c], dev) == ExecLazy(ExecAllLazy(l, cmds, dev), c, dev)
  {
    assert (cmds + [c])[..|cmds|] == cmds;
  }

  /** Of several addresses in a row only the last is echoed, and that before the answer to the command that uses it. */
  lemma EchoBeforeAnswer(l: Lazy, p: Word32, q: Word32, c: Word, dev: Device)
    requires IsBus(c)
    ensures var a := NewAddr(NewAddr(l.m.addr, p), q);
            var l' := ExecAllLazy(l, [Word(ADDR, p), Word(ADDR, q), c], dev);
            && !l'.unsent && l'.m.txns == l.m.txns + [Request(a, c)]
            && l'.m.rsps == l.m.rsps + [Echo(a, Increments(q)), Response(c.kind == ACK, dev(l'.m.txns))]
  {
    var first, second := Word(ADDR, p), Word(ADDR, q);
    ExecLazySnoc(l, [], first, dev);
    ExecLazySnoc(l, [first], second, dev);
    ExecLazySnoc(l, [first, second], c, dev);
    assert [] + [first] == [first] && [first] + [second] == [first, second];
    assert [first, second] + [c] == [first, second, c];
  }

  predicate NotEcho(w: Word) { w.kind != ADDR }

  /** Putting off the echo changes nothing but the echoes. */
  lemma {:induction false} LazyAgrees(l: Lazy, m: Machine, cmds: seq<Word>, dev: Device)
    requires l.m.addr == m.addr && l.m.inc == m.inc && l.m.txns == m.txns
    requires Keep(NotEcho, l.m.rsps) == Keep(NotEcho, m.rsps)
    ensures var l', m' := ExecAllLazy(l, cmds, dev).m, ExecAll(m, cmds, dev);
            && l'.addr == m'.addr && l'.inc == m'.inc && l'.txns == m'.txns
            && Keep(NotEcho, l'.rsps) == Keep(NotEcho, m'.rsps)
  {
    if cmds != [] {
      var init, c := cmds[..|cmds| - 1], cmds[|cmds| - 1];
      LazyAgrees(l, m, init, dev);
      var l1, m1 := ExecAllLazy(l, init, dev), ExecAll(m, init, dev);
      if IsBus(c) {
        var rsp := Response(c.kind == ACK, dev(m1.txns + [Request(m1.addr, c)]));
        var echo := if l1.unsent then [Echo(m1.addr, m1.inc)] else [];
        KeepAppend(NotEcho, m1.rsps, [rsp]);
        KeepAppend3(NotEcho, l1.m.rsps, echo, [rsp]);
      } else if c.kind == ADDR {
        KeepAppend(NotEcho, m1.rsps, [Echo(NewAddr(m1.addr, c.payload), Increments(c.payload))]);
      }
    }
  }

  // A memory.

  /** The memory after a sequence of requests: each write replaces one word. */
  function Memory(mem: Word30 -> Word32, txns: seq<Txn>): Word30 -> Word32 {
    if txns == [] then mem
    else
      var before, t := Memory(mem, txns[..|txns| - 1]), txns[|txns| - 1];
      if t.write then (a: Word30) => if a == t.addr then t.data else before(a) else before
  }

  function MemoryDevice(mem: Word30 -> Word32): Device {
    (txns: seq<Txn>) =>
      if txns == [] || txns[|txns| - 1].write then Done(0)
      else Done(Memory(mem, txns)(txns[|txns| - 1].addr))
  }
}
