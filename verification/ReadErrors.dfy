/**
 * A read that meets a bus error: how far it gets, what it asks for, and the
 * address it throws.
 */
module ReadErrors {
  import opened HexWord
  import opened Sequences
  import opened BusMachine
  import opened CommandStream
  import opened HostLink
  import opened HexHost
  import opened HostWrite

  /** A memory with addresses at which the bus answers with an error. */
  function FaultyDevice(mem: Word30 -> Word32, bad: Word30 -> bool): Device {
    (txns: seq<Txn>) =>
      if txns != [] && bad(txns[|txns| - 1].addr) then Failed else MemoryDevice(mem)(txns)
  }

  /** Before the first fault the device is the memory. */
  lemma {:induction false} FaultyAgrees(m: Machine, mem: Word30 -> Word32, bad: Word30 -> bool, n: nat)
    requires forall i: nat :: i < n ==> !bad(WordAt(m.addr, m.inc, i))
    ensures ExecAll(m, Reads(n), FaultyDevice(mem, bad)) == ExecAll(m, Reads(n), MemoryDevice(mem))
  {
    if n > 0 {
      var read, k: nat := Word(DATA, 0), n - 1;
      FaultyAgrees(m, mem, bad, k);
      MachineReads(m, mem, k);
      assert Reads(n) == Reads(k) + [read];
      ExecSnoc(m, Reads(k), read, FaultyDevice(mem, bad));
      ExecSnoc(m, Reads(k), read, MemoryDevice(mem));
      assert !bad(WordAt(m.addr, m.inc, k));
    }
  }

  /** The first fault in a row of reads is at the `k`th. */
  ghost predicate FirstFault(bad: Word30 -> bool, a: Word30, inc: bool, k: nat) {
    bad(WordAt(a, inc, k)) && forall i: nat :: i < k ==> !bad(WordAt(a, inc, i))
  }

  /** The reads before the fault are answered with the memory's words, the one that meets it with an error. */
  lemma ReadsMeetFault(m: Machine, mem: Word30 -> Word32, bad: Word30 -> bool, k: nat)
    requires FirstFault(bad, m.addr, m.inc, k)
    ensures ExecAll(m, Reads(k + 1), FaultyDevice(mem, bad)).rsps
         == m.rsps + DataWords(Contents(Memory(mem, m.txns), m.addr, m.inc, k)) + [RSP_BUS_ERROR]
  {
    var read, before := Word(DATA, 0), ExecAll(m, Reads(k), MemoryDevice(mem));
    FaultyAgrees(m, mem, bad, k);
    MachineReads(m, mem, k);
    assert Reads(k + 1) == Reads(k) + [read];
    ExecSnoc(m, Reads(k), read, FaultyDevice(mem, bad));
    MeetsFault(before, mem, bad);
  }

  lemma MeetsFault(m: Machine, mem: Word30 -> Word32, bad: Word30 -> bool)
    requires bad(m.addr)
    ensures Exec(m, Word(DATA, 0), FaultyDevice(mem, bad)).rsps == m.rsps + [RSP_BUS_ERROR]
  {}

  /** The same after the address, sent or not. */
  lemma DeviceFails(m: Machine, c: Cache, mem: Word30 -> Word32, bad: Word30 -> bool, a: Word30, inc: bool, k: nat)
    requires CacheAgrees(c, m) && FirstFault(bad, a, inc, k)
    ensures ExecAll(m, HexHost.ReadCommands(c, 4 * a, inc, k + 1), FaultyDevice(mem, bad)).rsps
         == m.rsps + EchoFor(c, a, inc) + DataWords(Contents(Memory(mem, m.txns), a, inc, k)) + [RSP_BUS_ERROR]
  {
    var dev := FaultyDevice(mem, bad);
    AddressReaches(m, c, a, inc, dev);
    ExecAppend(m, AddressFor(c, Tagged(4 * a, inc)), Reads(k + 1), dev);
    ReadsMeetFault(AddressedMachine(m, c, a, inc), mem, bad, k);
    assert m.rsps + [] == m.rsps;
  }

  lemma RemainingError(lead: seq<Word>, vals: seq<Word32>, post: seq<Word>)
    ensures Remaining(lead, vals, [RSP_BUS_ERROR] + post, |vals|)
         == (if vals == [] then lead else []) + ([RSP_BUS_ERROR] + post)
  {
    assert DataWords(vals[|vals|..]) == [];
  }

  lemma ThrowsAt(h0: Host, text: seq<Byte7>, lead: seq<Word>, vals: seq<Word32>, post: seq<Word>, items: seq<Item>)
    requires NoNews(h0.regs, lead) && HasRead(h0, text, lead, vals, [RSP_BUS_ERROR] + post, |vals|, items)
    ensures var (buf, r) := ReadWords(h0, |vals|, text);
            var next := ReadWord(r.h, 0, 3, r.rest);
            && buf == vals && r.Got?
            && next.Threw? && next.at == AddressAfter(h0.regs.lastAddr, h0.regs.inc, |vals|) && next.h.regs.busErr
  {
    var (buf, r) := ReadWords(h0, |vals|, text);
    RemainingError(lead, vals, post);
    LeadStill(h0.regs, r.h.regs, lead, |vals|);
    ReadsErrorWord(r.h, r.rest, items, if |vals| == 0 then lead else [], post);
    assert vals[..|vals|] == vals;
  }

  /**
   * A read that meets a bus error: through line ends and interrupt and idle notes
   * it gets the memory's words before the fault, asks for the one at the fault and
   * no more, and throws that word's address.
   */
  lemma ReadVMeetsError(h: Host, text: seq<Byte7>, items: seq<Item>, m: Machine, mem: Word30 -> Word32,
                        bad: Word30 -> bool, a: Word30, inc: bool, len: nat, k: nat, post: seq<Word>)
    requires Sees(h, text, items) && Flows(items, 3) && k < len && FirstFault(bad, a, inc, k)
    requires CacheAgrees(CacheOf(h.regs), m) && IsBoot(CacheOf(h.regs), m.rsps)
    requires BusWords(items)
          == ExecAll(m, HexHost.ReadCommands(CacheOf(h.regs), 4 * a, inc, k + 1), FaultyDevice(mem, bad)).rsps + post
    ensures var t := ReadV(h, 4 * a, inc, len, text);
            && t.status == BusError(AddressAfter(4 * a, inc, k)) && t.buf == Contents(Memory(mem, m.txns), a, inc, k)
            && t.sent == PrintAll(HexHost.ReadCommands(CacheOf(h.regs), 4 * a, inc, k + 1)) && t.h.regs.busErr
  {
    var c, memory := CacheOf(h.regs), Memory(mem, m.txns);
    var vals, lead := Contents(memory, a, inc, k), m.rsps + EchoFor(c, a, inc);
    var h0 := h.(regs := Addressed(h.regs, 4 * a, inc));
    DeviceFails(m, c, mem, bad, a, inc, k);
    Associate(lead + DataWords(vals), [RSP_BUS_ERROR], post);
    EchoIsNoNews(h.regs, a, inc, m.rsps);
    ReadsNone(h0, text, items, lead, vals, [RSP_BUS_ERROR] + post);
    var rest := ReadsAll(h0, text, items, lead, vals, [RSP_BUS_ERROR] + post, k);
    ThrowsAt(h0, text, lead, vals, post, rest);
    ReadsOneFurther(h0, text, k, len);
    Stops(h, a, inc, len, k, text);
  }

  lemma Stops(h: Host, a: Word30, inc: bool, len: nat, k: nat, text: seq<Byte7>)
    requires k < len && ReadWords(h.(regs := Addressed(h.regs, 4 * a, inc)), len, text).1.Threw?
    requires |ReadWords(h.(regs := Addressed(h.regs, 4 * a, inc)), len, text).0| == k
    ensures ReadV(h, 4 * a, inc, len, text).status == BusError(AddressAfter(4 * a, inc, k))
    ensures ReadV(h, 4 * a, inc, len, text).sent == PrintAll(HexHost.ReadCommands(CacheOf(h.regs), 4 * a, inc, k + 1))
  {}

  // Giving up.

  predicate IsIdleNote(i: Item) { i == Shown(IDLE_WORD) }

  /** The third idle note before a data word or an error makes readword give up, whatever else came between. */
  lemma {:induction false} GivesUp(r: Registers, n: nat, lead: seq<Item>, post: seq<Item>)
    requires (forall i <- lead :: Legal(i) && (i.Shown? ==> !EndsRead(i.word))) && post != []
    requires n == |Keep(IsIdleNote, lead)| + 1
    ensures var res := ReadItems(r, n, lead + ([Shown(IDLE_WORD)] + post)); res.ThrewItem? && res.at == 0
    decreases |lead|
  {
    var items := lead + ([Shown(IDLE_WORD)] + post);
    if lead == [] {
      assert items[0] == Shown(IDLE_WORD);
      LegalLetters(items[0]);
    } else {
      var i, others := lead[0], lead[1..];
      assert i in lead && items[1..] == others + ([Shown(IDLE_WORD)] + post);
      assert lead == [i] + others;
      KeepAppend(IsIdleNote, [i], others);
      if i.Shown? {
        LegalLetters(i);
      }
      GivesUp(Ended(r, i), if IsIdleNote(i) then n - 1 else n, others, post);
    }
  }

  // A wrong address.

  lemma ReadOneWord(h: Host, text: seq<Byte7>)
    requires ReadWord(h, 0, 3, text).Got?
    ensures ReadWords(h, 1, text) == ([ReadWord(h, 0, 3, text).value], ReadWord(h, 0, 3, text))
  {
    assert ReadWords(h, 0, text) == ([], Got(0, h, text));
    assert [] + [ReadWord(h, 0, 3, text).value] == [ReadWord(h, 0, 3, text).value];
  }

  lemma {:induction false} ReadWordsFront(h: Host, n: nat, text: seq<Byte7>)
    requires ReadWord(h, 0, 3, text).Got? && n > 0
    ensures var r := ReadWord(h, 0, 3, text);
            ReadWords(h, n + 1, text) == ([r.value] + ReadWords(r.h, n, r.rest).0, ReadWords(r.h, n, r.rest).1)
  {
    var r := ReadWord(h, 0, 3, text);
    var m := n - 1;
    if m == 0 {
      ReadOneWord(h, text);
      assert ReadWords(r.h, 0, r.rest) == ([], Got(0, r.h, r.rest));
    } else {
      ReadWordsFront(h, m, text);
    }
    var (buf, last) := ReadWords(r.h, m, r.rest);
    assert [r.value] + [] == [r.value];
    if last.Got? {
      var more := ReadWord(last.h, 0, 3, last.rest);
      ReadWordsNext(h, n, n + 1, text);
      ReadWordsNext(r.h, m, n, r.rest);
      if more.Got? {
        assert ([r.value] + buf) + [more.value] == [r.value] + (buf + [more.value]);
      }
    }
  }

  lemma FirstWord(h0: Host, text: seq<Byte7>, items: seq<Item>, b: Word30, inc: bool, v: Word32, post: seq<Word>)
    returns (rest: seq<Item>)
    requires Sees(h0, text, items) && Flows(items, 3) && h0.regs.addrSet && h0.regs.inc == inc
    requires BusWords(items) == [Echo(b, inc)] + ([Word(DATA, v)] + post)
    ensures var r := ReadWord(h0, 0, 3, text);
            var heard := Addressed(h0.regs, 4 * b, inc);
            && r.Got? && r.value == v && Sees(r.h, r.rest, rest)
            && Alike(r.h.regs, heard.(lastAddr := Bump(heard)))
    ensures Flows(rest, 3) && BusWords(rest) == post
  {
    var heard := Addressed(h0.regs, 4 * b, inc);
    TaggedFields(b, inc);
    LegalLetters(Shown(Echo(b, inc)));
    assert NoteAll(h0.regs, [Echo(b, inc)]) == NoteAll(Ended(h0.regs, Shown(Echo(b, inc))), []);
    FlowsReadably(items, 3);
    ReadsItems(h0, 3, text, items);
    rest := ReadsNextData(h0.regs, heard, items, 3, [Echo(b, inc)], Word(DATA, v), post);
  }

  lemma AddressesDiffer(a: Word30, b: Word30, inc: bool, n: nat)
    requires a != b
    ensures AddressAfter(4 * a, inc, n) != AddressAfter(4 * b, inc, n)
  {
    if inc {
      ModByFour(a + n);
      ModByFour(b + n);
      SumsDiffer(a, b, n);
    }
  }

  lemma SumsDiffer(a: Word30, b: Word30, n: nat)
    requires a != b
    ensures (a + n) % 0x4000_0000 != (b + n) % 0x4000_0000
  {}

  lemma AddressGoesOn(x: Word32, inc: bool, n: nat)
    ensures AddressAfter(AddressAfter(x, inc, 1), inc, n) == AddressAfter(x, inc, n + 1)
  {}

  /** All words have been read, and the host's address is `n` words on from `x`. */
  ghost predicate AllRead(h: Host, n: nat, text: seq<Byte7>, vals: seq<Word32>, x: Word32, inc: bool) {
    var (buf, r) := ReadWords(h, n, text);
    buf == vals && r.Got? && r.h.regs.lastAddr == AddressAfter(x, inc, n)
  }

  lemma OthersRead(h: Host, text: seq<Byte7>, items: seq<Item>, others: seq<Word32>, post: seq<Word>)
    requires Sees(h, text, items) && Flows(items, 3) && BusWords(items) == DataWords(others) + post
    ensures AllRead(h, |others|, text, others, h.regs.lastAddr, h.regs.inc)
  {
    assert NoteAll(h.regs, []) == h.regs;
    assert [] + DataWords(others) == DataWords(others);
    ReadsNone(h, text, items, [], others, post);
    var rest := ReadsAll(h, text, items, [], others, post, |others|);
    assert others[..|others|] == others;
  }

  lemma OthersFollow(h0: Host, text: seq<Byte7>, vals: seq<Word32>, x: Word32, inc: bool)
    requires vals != [] && ReadWord(h0, 0, 3, text).Got? && ReadWord(h0, 0, 3, text).value == vals[0]
    requires var r := ReadWord(h0, 0, 3, text);
             && r.h.regs.lastAddr == AddressAfter(x, inc, 1) && r.h.regs.inc == inc
             && AllRead(r.h, |vals| - 1, r.rest, vals[1..], r.h.regs.lastAddr, inc)
    ensures AllRead(h0, |vals|, text, vals, x, inc)
  {
    var n := |vals| - 1;
    ReadOneWord(h0, text);
    AddressGoesOn(x, inc, n);
    if n > 0 {
      ReadWordsFront(h0, n, text);
    }
    assert vals == [vals[0]] + vals[1..];
  }

  lemma HeardAddress(r0: Registers, r: Registers, x: Word32, inc: bool)
    requires var heard := Addressed(r0, x, inc); Alike(r, heard.(lastAddr := Bump(heard)))
    ensures r.lastAddr == AddressAfter(x, inc, 1) && r.inc == inc
  {}

  lemma ReadsFromWrongAddress(h0: Host, text: seq<Byte7>, items: seq<Item>, b: Word30, inc: bool,
                              vals: seq<Word32>, post: seq<Word>)
    requires Sees(h0, text, items) && Flows(items, 3) && h0.regs.addrSet && h0.regs.inc == inc && vals != []
    requires BusWords(items) == [Echo(b, inc)] + DataWords(vals) + post
    ensures AllRead(h0, |vals|, text, vals, 4 * b, inc)
  {
    hide Sees, Flows, BusWords, AllRead, ReadWord, Alike, Echo;
    var others := vals[1..];
    assert DataWords(vals) == [Word(DATA, vals[0])] + DataWords(others);
    assert BusWords(items) == [Echo(b, inc)] + ([Word(DATA, vals[0])] + (DataWords(others) + post));
    var left := FirstWord(h0, text, items, b, inc, vals[0], DataWords(others) + post);
    var r := ReadWord(h0, 0, 3, text);
    OthersRead(r.h, r.rest, left, others, post);
    HeardAddress(h0.regs, r.h.regs, 4 * b, inc);
    OthersFollow(h0, text, vals, 4 * b, inc);
  }

  /**
   * readv's closing check: if the device echoes another address than the one asked
   * for, the call ends in a mismatch, though every word was read.
   */
  lemma ReadVSeesMismatch(h: Host, text: seq<Byte7>, items: seq<Item>, a: Word30, b: Word30, inc: bool,
                          vals: seq<Word32>, post: seq<Word>)
    requires Sees(h, text, items) && Flows(items, 3) && a != b && vals != []
    requires BusWords(items) == [Echo(b, inc)] + DataWords(vals) + post
    ensures var t := ReadV(h, 4 * a, inc, |vals|, text); t.status == AddressMismatch && t.buf == vals
  {
    ReadsFromWrongAddress(h.(regs := Addressed(h.regs, 4 * a, inc)), text, items, b, inc, vals, post);
    AddressesDiffer(a, b, inc, |vals|);
  }
}
