/**
 * The 34-bit response word and the text it is shown as on the wire.
 * A word is two kind bits over a 32-bit payload; kind 3 is a "special" whose
 * top five bits alone are sent.
 */
module HexWord {
  import opened Sequences

  type Word32 = w: int | 0 <= w < 0x1_0000_0000
  type Word30 = w: int | 0 <= w < 0x4000_0000
  type Kind = k: int | 0 <= k < 4
  type Bits5 = b: int | 0 <= b < 32
  type Byte7 = b: int | 0 <= b < 128
  type Byte8 = b: int | 0 <= b < 256

  /** {kind[1:0], payload[31:0]}. */
  datatype Word = Word(kind: Kind, payload: Word32)

  const DATA: Kind := 0
  const ACK: Kind := 1
  const ADDR: Kind := 2
  const SPECIAL: Kind := 3

  const CR: Byte7 := 13
  const LF: Byte7 := 10
  const FILL: Byte7 := 0x7f

  /** {SPECIAL, 3'h0, 29'h0}: printed 'T'. */
  const RSP_RESET := Word(3, 0)
  /** {SPECIAL, 3'h1, 29'h0}: printed 'E'. */
  const RSP_BUS_ERROR := Word(3, 0x2000_0000)
  /** {ACK, 32'h0}: printed "K00000000". */
  const RSP_WRITE_ACK := Word(1, 0)
  /** {5'b11010, 29'h0}: printed 'I'. */
  const INT_WORD := Word(3, 0x4000_0000)
  /** {5'b11011, 29'h0}: printed 'Z'. */
  const IDLE_WORD := Word(3, 0x6000_0000)

  /** Bits 33:29 of a special word, the only ones that are sent. */
  function Tag5(payload: Word32): Bits5 { 24 + payload / 0x2000_0000 }

  /** A word shifted left by one nibble. */
  function ShiftNibble(v: Word32): Word32 { (v % 0x1000_0000) * 16 }

  function TopNibble(v: Word32): (d: Bits5)
    ensures d < 16
  {
    v / 0x1000_0000
  }

  /** The character table of the hex stage. */
  function GxChar(bits: Bits5): (c: Byte7)
    ensures c != LF && c != FILL
    ensures c == CR <==> 20 <= bits < 24 || 28 <= bits
    ensures bits < 10 ==> c == '0' as int + bits
    ensures 10 <= bits < 16 ==> c == 'a' as int + bits - 10
    ensures c == 'I' as int <==> bits == 26
    ensures c == 'Z' as int <==> bits == 27
  {
    if bits < 10 then '0' as int + bits
    else if bits < 16 then 'a' as int + bits - 10
    else match bits
      case 16 => 'R' as int
      case 17 => 'K' as int
      case 18 => 'A' as int
      case 19 => 'S' as int
      case 24 => 'T' as int
      case 25 => 'E' as int
      case 26 => 'I' as int
      case 27 => 'Z' as int
      case _ => CR
  }

  /** The top `n` nibbles of `v`, most significant first. */
  function Nibbles(v: Word32, n: nat): (s: seq<Bits5>)
    ensures |s| == n
    ensures forall d <- s :: d < 16
    decreases n, v
  {
    if n == 0 then [] else [TopNibble(v)] + Nibbles(ShiftNibble(v), n - 1)
  }

  /** A word as five-bit units: one for a special word, otherwise a kind and eight nibbles. */
  function Units(w: Word): (s: seq<Bits5>)
    ensures |s| == if w.kind == SPECIAL then 1 else 9
  {
    if w.kind == SPECIAL then [Tag5(w.payload)] else [16 + w.kind] + Nibbles(w.payload, 8)
  }

  function Chars(units: seq<Bits5>): (s: seq<Byte7>)
    ensures |s| == |units|
    ensures forall i :: 0 <= i < |s| ==> s[i] == GxChar(units[i])
  {
    seq(|units|, i requires 0 <= i < |units| => GxChar(units[i]))
  }

  function Render(w: Word): (s: seq<Byte7>) { Chars(Units(w)) }

  function RenderAll(ws: seq<Word>): seq<Byte7> { Flatten(Render, ws) }

  predicate IsText(c: Byte7) { c != CR && c != LF }

  /** A word the response chain did not add itself. */
  predicate IsResponse(w: Word) { w != INT_WORD && w != IDLE_WORD }

  /** A character that is neither line structure nor an interrupt or idle note. */
  predicate IsPayload(c: Byte7) {
    IsText(c) && c != 'I' as int && c != 'Z' as int
  }

  /** What a word sequence shows on the wire, line structure aside. */
  function Text(ws: seq<Word>): seq<Byte7> { Keep(IsText, RenderAll(ws)) }

  lemma AddedWordsHaveNoPayload(w: Word)
    ensures !IsResponse(w) ==> Keep(IsPayload, Render(w)) == []
  {
    if !IsResponse(w) {
      assert Render(w) == [GxChar(Tag5(w.payload))];
    }
  }

  /** Dropping the added words drops no payload character. */
  lemma PayloadOfResponses(ws: seq<Word>)
    ensures Keep(IsPayload, RenderAll(Keep(IsResponse, ws))) == Keep(IsPayload, RenderAll(ws))
  {
    forall w | !IsResponse(w) ensures Keep(IsPayload, Render(w)) == [] {
      AddedWordsHaveNoPayload(w);
    }
    KeepFlattenKeep(IsResponse, IsPayload, Render, ws);
  }

  /** The words a bus executor answers with. */
  predicate IsBusResponse(w: Word) {
    w.kind != SPECIAL || w == RSP_RESET || w == RSP_BUS_ERROR
  }

  lemma BusResponseIsPayload(w: Word)
    requires IsBusResponse(w)
    ensures IsResponse(w) && forall c <- Render(w) :: IsPayload(c)
  {
    forall i | 0 <= i < |Render(w)| ensures IsPayload(Render(w)[i]) {
      assert Render(w)[i] == GxChar(Units(w)[i]);
      if w.kind != SPECIAL && i > 0 {
        assert Units(w)[i] == Nibbles(w.payload, 8)[i - 1];
        assert Nibbles(w.payload, 8)[i - 1] in Nibbles(w.payload, 8);
      }
    }
  }

  lemma BusResponsesArePayload(ws: seq<Word>)
    requires forall w <- ws :: IsBusResponse(w)
    ensures Keep(IsResponse, ws) == ws && Keep(IsPayload, RenderAll(ws)) == RenderAll(ws)
  {
    forall w <- ws ensures IsResponse(w) && Keep(IsPayload, Render(w)) == Render(w) {
      BusResponseIsPayload(w);
      KeepAll(IsPayload, Render(w));
    }
    KeepAll(IsResponse, ws);
    KeepFlatten(IsPayload, Render, ws);
  }

  /** How the words without a payload of their own are spelled. */
  lemma Spellings()
    ensures Render(RSP_RESET) == ['T' as int] && Render(RSP_BUS_ERROR) == ['E' as int]
    ensures Render(INT_WORD) == ['I' as int] && Render(IDLE_WORD) == ['Z' as int]
    ensures Render(RSP_WRITE_ACK) == ['K' as int] + seq(8, _ => '0' as int)
  {
    Zeros(8);
    assert Units(RSP_WRITE_ACK) == [17] + Nibbles(0, 8);
  }

  lemma {:induction false} Zeros(n: nat)
    ensures Nibbles(0, n) == seq(n, _ => 0)
  {
    if n > 0 {
      Zeros(n - 1);
    }
  }
}
