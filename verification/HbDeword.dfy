/** hbdeword: sends a response word as a sequence of five-bit units. */
module HbDeword {
  import opened HexWord
  import opened Sequences

  datatype State = State(stb: bool, len: nat, word: Word32, bits: Bits5)

  datatype Input = Input(reset: bool, stb: bool, word: Word, busy: bool)

  /** `word` and `bits` have no initial value. */
  predicate Initial(s: State) { !s.stb && s.len == 0 }

  predicate Accepts(s: State, i: Input) { i.stb && !s.stb }

  predicate Sends(s: State, i: Input) { s.stb && !i.busy }

  function Next(s: State, i: Input): State {
    var n :=
      if Accepts(s, i) then
        if i.word.kind == SPECIAL then State(true, 0, i.word.payload, Tag5(i.word.payload))
        else State(true, 8, i.word.payload, 16 + i.word.kind)
      else if i.busy then s
      else State(s.len != 0, if s.len == 0 then 0 else s.len - 1, ShiftNibble(s.word), TopNibble(s.word));
    if i.reset then n.(stb := false, len := 0) else n
  }

  /** The units still to be sent: the one presented and the leading nibbles of the shift register. */
  function Held(s: State): seq<Bits5> {
    if s.stb then [s.bits] + Nibbles(s.word, s.len) else []
  }

  predicate Inv(s: State) { s.len <= 8 && (!s.stb ==> s.len == 0) }

  datatype Run = Run(s: State, taken: seq<Word>, sent: seq<Bits5>)

  function Start(s: State): Run { Run(s, [], []) }

  function Step(r: Run, i: Input): Run {
    if i.reset then Start(Next(r.s, i))
    else Run(
      Next(r.s, i),
      if Accepts(r.s, i) then r.taken + [i.word] else r.taken,
      if Sends(r.s, i) then r.sent + [r.s.bits] else r.sent)
  }

  predicate RunInv(r: Run) {
    Inv(r.s) && r.sent + Held(r.s) == Flatten(Units, r.taken)
  }

  lemma HeldStep(s: State, i: Input)
    requires Inv(s) && !i.reset
    ensures Inv(Next(s, i))
    ensures Accepts(s, i) ==> Held(s) == [] && Held(Next(s, i)) == Units(i.word)
    ensures Sends(s, i) ==> Held(s) == [s.bits] + Held(Next(s, i))
    ensures !Accepts(s, i) && !Sends(s, i) ==> Held(Next(s, i)) == Held(s)
  {
    if Accepts(s, i) && i.word.kind == SPECIAL {
      assert Nibbles(i.word.payload, 0) == [];
    }
  }

  /** The units sent and still held are those of the words taken, in order. */
  lemma Conserves(r: Run, i: Input)
    requires RunInv(r)
    ensures RunInv(Step(r, i))
  {
    if !i.reset {
      HeldStep(r.s, i);
      if Accepts(r.s, i) {
        FlattenSnoc(Units, r.taken, i.word);
        assert r.sent + [] == r.sent;
      } else if Sends(r.s, i) {
        Associate(r.sent, [r.s.bits], Held(Next(r.s, i)));
      }
    }
  }

  class Deword {
    var stb: bool
    var len: nat
    var word: Word32
    var bits: Bits5

    function Regs(): State
      reads this
    {
      State(stb, len, word, bits)
    }

    constructor ()
      ensures Initial(Regs())
    {
      stb, len := false, 0;
      word, bits := *, *;
    }

    method Step(i: Input)
      modifies this
      ensures Regs() == Next(old(Regs()), i)
    {
      var s := Regs();
      var busy := s.stb;

      if i.reset {
        len := 0;
        stb := false;
      } else if i.stb && !busy {
        stb := true;
        if i.word.kind == 3 {
          len := 0;
        } else {
          len := 8;
        }
      } else if !i.busy {
        stb := s.len != 0;
        if s.len != 0 {
          len := s.len - 1;
        }
      }

      if i.stb && !busy {
        word := i.word.payload;
      } else if !i.busy {
        word := ShiftNibble(s.word);
      }

      if i.stb && !busy {
        if i.word.kind == 3 {
          bits := Tag5(i.word.payload);
        } else {
          bits := 16 + i.word.kind;
        }
      } else if !i.busy {
        bits := TopNibble(s.word);
      }
    }
  }
}
