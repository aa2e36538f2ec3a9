/** hbgenhex: turns five-bit units into characters, one register deep. */
module HbGenhex {
  import opened HexWord

  datatype State = State(stb: bool, byte: Byte7)

  datatype Input = Input(reset: bool, stb: bool, bits: Bits5, busy: bool)

  const INIT := State(false, 0)

  function Busy(s: State, i: Input): bool { s.stb && i.busy }

  predicate Accepts(s: State, i: Input) { i.stb && !Busy(s, i) }

  predicate Sends(s: State, i: Input) { s.stb && !i.busy }

  function Next(s: State, i: Input): State {
    var n := if Busy(s, i) then s else State(i.stb, GxChar(i.bits));
    n.(stb := n.stb && !i.reset)
  }

  function Held(s: State): seq<Byte7> { if s.stb then [s.byte] else [] }

  datatype Run = Run(s: State, taken: seq<Bits5>, sent: seq<Byte7>)

  function Start(s: State): Run { Run(s, [], []) }

  function Step(r: Run, i: Input): Run {
    if i.reset then Start(Next(r.s, i))
    else Run(
      Next(r.s, i),
      if Accepts(r.s, i) then r.taken + [i.bits] else r.taken,
      if Sends(r.s, i) then r.sent + [r.s.byte] else r.sent)
  }

  predicate RunInv(r: Run) { r.sent + Held(r.s) == Chars(r.taken) }

  lemma Conserves(r: Run, i: Input)
    requires RunInv(r)
    ensures RunInv(Step(r, i))
  {
    var n := Step(r, i);
    if !i.reset && Accepts(r.s, i) {
      assert Chars(n.taken) == Chars(r.taken) + [GxChar(i.bits)];
      assert n.sent == r.sent + Held(r.s);
    }
  }

  class Genhex {
    var stb: bool
    var byte: Byte7

    function Regs(): State
      reads this
    {
      State(stb, byte)
    }

    constructor ()
      ensures Regs() == INIT
    {
      stb, byte := false, 0;
    }

    method Step(i: Input)
      modifies this
      ensures Regs() == Next(old(Regs()), i)
    {
      var busy := stb && i.busy;

      if i.reset {
        stb := false;
      } else if !busy {
        stb := i.stb;
      }

      if !busy {
        byte := GxChar(i.bits);
      }
    }
  }
}
