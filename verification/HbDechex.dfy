/** hbdechex: one received byte to one token, registered. */
module HbDechex {
  import opened HexWord

  const RESET_CHAR: Byte7 := 0x54

  datatype State = State(reset: bool, stb: bool, bits: Bits5)

  datatype Input = Input(stb: bool, byte: Byte8)

  /** Bit 7 of a received byte is ignored. */
  function Low7(b: Byte8): Byte7 { b % 128 }

  /**
   * The token of a character: a digit below 16, a command from 16 to 19, or other.
   * Digits and commands have the codes that hbgenhex prints as they are, but for
   * 'W', which has that of its answer 'K'.
   */
  function Token(c: Byte7): (t: Bits5)
    ensures t < 16 <==> 0x30 <= c <= 0x39 || 0x61 <= c <= 0x66
    ensures 16 <= t < 20 <==> c == 'R' as int || c == 'W' as int || c == 'A' as int || c == 'S' as int
    ensures t < 20 ==> GxChar(t) == if c == 'W' as int then 'K' as int else c
  {
    if 0x30 <= c <= 0x39 then c - 0x30
    else if 0x61 <= c <= 0x66 then c - 0x61 + 10
    else match c
      case 0x52 => 16 // R
      case 0x57 => 17 // W
      case 0x41 => 18 // A
      case 0x53 => 19 // S
      case 0x54 => 22 // T
      case _ => 31
  }

  /** `bits` has no initial value. */
  predicate Initial(s: State) { s.reset && !s.stb }

  function Next(s: State, i: Input): State {
    var c := Low7(i.byte);
    State(i.stb && c == RESET_CHAR, i.stb && c != FILL, Token(c))
  }

  class Dechex {
    var reset: bool
    var stb: bool
    var bits: Bits5

    function Regs(): State
      reads this
    {
      State(reset, stb, bits)
    }

    constructor ()
      ensures Initial(Regs())
    {
      reset, stb := true, false;
      bits := *;
    }

    method Step(i: Input)
      modifies this
      ensures Regs() == Next(old(Regs()), i)
    {
      var c := Low7(i.byte);
      reset := i.stb && c == 0x54;
      stb := i.stb && c != 0x7f;
      bits := Token(c);
    }
  }
}
