/**
 * What the text of a writev does to the device: its words end up in memory, and
 * each is acknowledged once.
 */
module WriteEffect {
  import opened HexWord
  import opened Sequences
  import opened BusMachine
  import opened CommandStream
  import opened HexHost
  import opened HostWrite

  /** The memory at `x` after the words of `data` were stored from `a` on. */
  function StoredAt(mem: Word30 -> Word32, a: Word30, inc: bool, data: seq<Word32>, x: Word30): Word32 {
    if data == [] then mem(x)
    else if x == WordAt(a, inc, |data| - 1) then data[|data| - 1]
    else StoredAt(mem, a, inc, data[..|data| - 1], x)
  }

  /** The addresses of an advancing write are all different, as long as there are no more of them than words. */
  lemma AddressesDiffer(a: Word30, i: nat, j: nat)
    requires i < j < 0x4000_0000
    ensures WordAt(a, true, i) != WordAt(a, true, j)
  {}

  /** An advancing write of no more words than there are leaves each at its own address and nothing else changed. */
  lemma {:induction false} StoredInOrder(mem: Word30 -> Word32, a: Word30, data: seq<Word32>, x: Word30)
    requires |data| <= 0x4000_0000
    ensures forall i :: 0 <= i < |data| && x == WordAt(a, true, i) ==> StoredAt(mem, a, true, data, x) == data[i]
    ensures (forall i :: 0 <= i < |data| ==> x != WordAt(a, true, i)) ==> StoredAt(mem, a, true, data, x) == mem(x)
  {
    if data != [] {
      var n := |data| - 1;
      StoredInOrder(mem, a, data[..n], x);
      forall i | 0 <= i < n ensures WordAt(a, true, i) != WordAt(a, true, n) {
        AddressesDiffer(a, i, n);
      }
    }
  }

  /** A write that does not advance leaves its last word. */
  lemma {:induction false} StoredInPlace(mem: Word30 -> Word32, a: Word30, data: seq<Word32>, x: Word30)
    ensures StoredAt(mem, a, false, data, x) == if x == a && data != [] then data[|data| - 1] else mem(x)
  {
    if data != [] {
      StoredInPlace(mem, a, data[..|data| - 1], x);
    }
  }

  /** What `n` write commands have done to the machine. */
  ghost predicate HasWritten(m: Machine, mem: Word30 -> Word32, data: seq<Word32>, m': Machine) {
    && m'.addr == WordAt(m.addr, m.inc, |data|) && m'.inc == m.inc
    && m'.rsps == m.rsps + seq(|data|, _ => RSP_WRITE_ACK)
    && forall x: Word30 :: Memory(mem, m'.txns)(x) == StoredAt(Memory(mem, m.txns), m.addr, m.inc, data, x)
  }

  lemma WritesOne(m: Machine, mem: Word30 -> Word32, v: Word32)
    ensures var m' := Exec(m, Word(ACK, v), MemoryDevice(mem));
            && m'.addr == WordAt(m.addr, m.inc, 1) && m'.inc == m.inc && m'.rsps == m.rsps + [RSP_WRITE_ACK]
            && forall x: Word30 :: Memory(mem, m'.txns)(x) == if x == m.addr then v else Memory(mem, m.txns)(x)
  {
    var txns := m.txns + [Request(m.addr, Word(ACK, v))];
    assert txns[..|txns| - 1] == m.txns;
  }

  lemma WritesNext(m: Machine, mem: Word30 -> Word32, data: seq<Word32>, m1: Machine, v: Word32)
    requires HasWritten(m, mem, data, m1)
    ensures HasWritten(m, mem, data + [v], Exec(m1, Word(ACK, v), MemoryDevice(mem)))
  {
    WritesOne(m1, mem, v);
    WordAtNext(m.addr, m.inc, |data|);
    assert (data + [v])[..|data|] == data;
    assert seq(|data| + 1, _ => RSP_WRITE_ACK) == seq(|data|, _ => RSP_WRITE_ACK) + [RSP_WRITE_ACK];
    Associate(m.rsps, seq(|data|, _ => RSP_WRITE_ACK), [RSP_WRITE_ACK]);
  }

  lemma {:induction false} MachineWrites(m: Machine, mem: Word30 -> Word32, data: seq<Word32>)
    ensures HasWritten(m, mem, data, ExecAll(m, Writes(data), MemoryDevice(mem)))
  {
    if data == [] {
      WordAtNext(m.addr, m.inc, 0);
      assert seq(0, _ => RSP_WRITE_ACK) == [];
    } else {
      var n := |data| - 1;
      var m1 := ExecAll(m, Writes(data[..n]), MemoryDevice(mem));
      MachineWrites(m, mem, data[..n]);
      WritesSnoc(data, n);
      assert data[..n + 1] == data && data[..n] + [data[n]] == data;
      ExecSnoc(m, Writes(data[..n]), Word(ACK, data[n]), MemoryDevice(mem));
      WritesNext(m, mem, data[..n], m1, data[n]);
    }
  }

  /** The commands of a write. */
  function WriteCommands(c: Cache, a: Word30, inc: bool, data: seq<Word32>): seq<Command> {
    AddressFor(c, Tagged(4 * a, inc)) + Writes(data)
  }

  lemma WritesParse(c: Cache, a: Word30, inc: bool, data: seq<Word32>)
    requires data != []
    ensures Parse(PrintAll(WriteCommands(c, a, inc, data))) == Parser(WriteCommands(c, a, inc, data), [])
  {
    var cmds := WriteCommands(c, a, inc, data);
    assert cmds[|cmds| - 1] == Word(ACK, data[|data| - 1]);
    CommandStream.ReadCommands(cmds);
    var p := Parse(PrintAll(cmds));
    assert p.words + [] == p.words;
  }

  /**
   * Writing reaches the memory: the text that writev sends, parsed and executed,
   * stores the words of `data` from the address on, whether or not the address had
   * to be sent, and is answered by the echo of an address sent and one
   * acknowledgement for each word.
   */
  lemma WritesReachMemory(c: Cache, m: Machine, mem: Word30 -> Word32, a: Word30, inc: bool, data: seq<Word32>, x: Word30)
    requires CacheAgrees(c, m) && data != []
    ensures var m' := ExecAll(m, Parse(PrintAll(WriteCommands(c, a, inc, data))).words, MemoryDevice(mem));
            && Memory(mem, m'.txns)(x) == StoredAt(Memory(mem, m.txns), a, inc, data, x)
            && m'.rsps == m.rsps + EchoFor(c, a, inc) + seq(|data|, _ => RSP_WRITE_ACK)
            && m'.addr == WordAt(a, inc, |data|) && m'.inc == inc
  {
    var dev := MemoryDevice(mem);
    WritesParse(c, a, inc, data);
    AddressReaches(m, c, a, inc, dev);
    ExecAppend(m, AddressFor(c, Tagged(4 * a, inc)), Writes(data), dev);
    var m1 := AddressedMachine(m, c, a, inc);
    MachineWrites(m1, mem, data);
    assert m.rsps + [] == m.rsps;
  }
}
