/** hbpack: gathers tokens into command words; a word is sent on when the next command or separator comes. */
module HbPack {
  import opened HexWord

  datatype State = State(loaded: bool, stb: bool, word: Word, out: Word)

  datatype Input = Input(reset: bool, stb: bool, bits: Bits5)

  const EMPTY := Word(0, 0)
  const INIT := State(false, false, EMPTY, EMPTY)

  predicate IsCommand(bits: Bits5) { 16 <= bits < 20 }

  function PushDigit(w: Word, d: Bits5): Word
    requires d < 16
  {
    w.(payload := ShiftNibble(w.payload) + d)
  }

  function Next(s: State, i: Input): State {
    if i.reset then INIT
    else if !i.stb then s.(stb := false)
    else if i.bits < 16 then State(s.loaded, false, PushDigit(s.word, i.bits), s.word)
    else State(IsCommand(i.bits), s.loaded, Word(i.bits % 4, 0), s.word)
  }

  class Pack {
    var loaded: bool
    var stb: bool
    var word: Word
    var out: Word

    function Regs(): State
      reads this
    {
      State(loaded, stb, word, out)
    }

    constructor ()
      ensures Regs() == INIT
    {
      loaded, stb, word, out := false, false, EMPTY, EMPTY;
    }

    method Step(i: Input)
      modifies this
      ensures Regs() == Next(old(Regs()), i)
    {
      stb := !i.reset && i.stb && loaded && i.bits / 16 == 1;

      if i.reset {
        loaded := false;
      } else if i.stb && i.bits / 4 == 4 {
        loaded := true;
      } else if i.stb && i.bits / 16 == 1 {
        loaded := false;
      }

      if i.reset {
        out := EMPTY;
      } else if i.stb {
        out := word;
      }

      if i.reset {
        word := EMPTY;
      } else if i.stb {
        if i.bits / 16 == 1 {
          word := Word(i.bits % 4, 0);
        } else {
          word := Word(word.kind, (word.payload % 0x1000_0000) * 16 + i.bits);
        }
      }
    }
  }
}
