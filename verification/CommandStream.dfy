/**
 * The command half of hbbus, hbdechex into hbpack, against a parser of the
 * received text; and the text the host prints, which it parses back.
 */
module CommandStream {
  import opened HexWord
  import opened Sequences
  import HbDechex
  import HbPack

  // The parser.

  /** Words completed, and the one whose end has not come yet. */
  datatype Parser = Parser(words: seq<Word>, open: seq<Word>)

  function Kind(c: Byte7): seq<Kind> {
    if c == 'R' as int then [DATA] else if c == 'W' as int then [ACK]
    else if c == 'A' as int then [ADDR] else if c == 'S' as int then [SPECIAL] else []
  }

  /** The value of a lower-case hex digit. */
  function Digit(c: Byte7): seq<Bits5> {
    if '0' as int <= c <= '9' as int then [c - '0' as int]
    else if 'a' as int <= c <= 'f' as int then [c - 'a' as int + 10] else []
  }

  function AddDigit(w: Word, d: int): Word
    requires 0 <= d < 16
  {
    w.(payload := (w.payload * 16 + d) % 0x1_0000_0000)
  }

  /**
   * A digit extends the open word, keeping its low 32 bits; any other character
   * ends it, and a command letter opens the next.  'T' drops the open word and
   * the fill character 0x7f is skipped.
   */
  function Take(p: Parser, c: Byte7): Parser {
    if c == FILL then p
    else if c == 'T' as int then Parser(p.words, [])
    else if |Digit(c)| == 1 then
      if p.open == [] then p else p.(open := [AddDigit(p.open[0], Digit(c)[0])])
    else Parser(p.words + p.open, if Kind(c) == [] then [] else [Word(Kind(c)[0], 0)])
  }

  function TakeAll(p: Parser, text: seq<Byte7>): Parser { Fold(Take, p, text) }

  const NONE := Parser([], [])

  function Parse(text: seq<Byte7>): Parser { TakeAll(NONE, text) }

  lemma TakeSnoc(p: Parser, text: seq<Byte7>, c: Byte7)
    ensures TakeAll(p, text + [c]) == Take(TakeAll(p, text), c)
  {
    FoldSnoc(Take, p, text, c);
  }

  lemma TakeAppend(p: Parser, a: seq<Byte7>, b: seq<Byte7>)
    ensures TakeAll(p, a + b) == TakeAll(TakeAll(p, a), b)
  {
    FoldAppend(Take, p, a, b);
  }

  lemma TakeFront(p: Parser, text: seq<Byte7>)
    requires text != []
    ensures TakeAll(p, text) == TakeAll(Take(p, text[0]), text[1..])
  {
    TakeAppend(p, [text[0]], text[1..]);
    TakeSnoc(p, [], text[0]);
    assert text == [text[0]] + text[1..] && [] + [text[0]] == [text[0]];
  }

  // The two stages, clock by clock.

  datatype State = State(dh: HbDechex.State, pk: HbPack.State)

  function PackIn(s: State): HbPack.Input { HbPack.Input(s.dh.reset, s.dh.stb, s.dh.bits) }

  function Next(s: State, i: HbDechex.Input): State {
    State(HbDechex.Next(s.dh, i), HbPack.Next(s.pk, PackIn(s)))
  }

  predicate Initial(s: State) { HbDechex.Initial(s.dh) && s.pk == HbPack.INIT }

  /** Everything received and everything packed, since power-up. */
  datatype Run = Run(s: State, text: seq<Byte7>, packed: seq<Word>)

  function Step(r: Run, i: HbDechex.Input): Run {
    Run(Next(r.s, i),
        if i.stb then r.text + [HbDechex.Low7(i.byte)] else r.text,
        if r.s.pk.stb then r.packed + [r.s.pk.out] else r.packed)
  }

  function After(s: State, ins: seq<HbDechex.Input>): Run {
    if ins == [] then Run(s, [], []) else Step(After(s, ins[..|ins| - 1]), ins[|ins| - 1])
  }

  /** The words packed, with the one in the output register. */
  function Packed(r: Run): seq<Word> { r.packed + if r.s.pk.stb then [r.s.pk.out] else [] }

  /** hbpack has done `done` of the text; at most its last character is still in hbdechex. */
  predicate Follows(r: Run, done: seq<Byte7>) {
    var p := Parse(done);
    && Packed(r) == p.words
    && r.s.pk.loaded == (p.open != [])
    && (p.open != [] ==> p.open == [r.s.pk.word])
    && (if r.s.dh.stb then
          && r.text != [] && r.text == done + [r.text[|r.text| - 1]]
          && var c := r.text[|r.text| - 1];
             c != FILL && r.s.dh.bits == HbDechex.Token(c) && r.s.dh.reset == (c == 'T' as int)
        else
          && p == Parse(r.text)
          && (r.s.dh.reset ==> p == NONE))
  }

  lemma PackTakes(p: Parser, pk: HbPack.State, c: Byte7)
    requires c != FILL && pk.loaded == (p.open != []) && (p.open != [] ==> p.open == [pk.word])
    ensures var i := HbPack.Input(c == 'T' as int, true, HbDechex.Token(c));
            var n, q := HbPack.Next(pk, i), Take(p, c);
            && n.loaded == (q.open != []) && (q.open != [] ==> q.open == [n.word])
            && q.words == p.words + if n.stb then [n.out] else []
  {
    if |Digit(c)| == 1 && p.open != [] {
      var v: int, d: int := pk.word.payload, Digit(c)[0];
      assert (v * 16 + d) % 0x1_0000_0000 == (v % 0x1000_0000) * 16 + d;
    }
  }

  lemma FollowsStep(r: Run, i: HbDechex.Input, done: seq<Byte7>) returns (done': seq<Byte7>)
    requires Follows(r, done)
    ensures Follows(Step(r, i), done')
  {
    done' := r.text;
    if r.s.dh.stb {
      var c := r.text[|r.text| - 1];
      PackTakes(Parse(done), r.s.pk, c);
      TakeSnoc(NONE, done, c);
    }
    if i.stb {
      TakeSnoc(NONE, r.text, HbDechex.Low7(i.byte));
    }
  }

  /**
   * For every received waveform, and bytes at any spacing, the words packed are
   * those the parser finds in the received text, short of its last character
   * while that is still in the first stage.
   */
  lemma {:induction false} PacksWhatIsParsed(s: State, ins: seq<HbDechex.Input>) returns (done: seq<Byte7>)
    requires Initial(s)
    ensures var r := After(s, ins);
            && Follows(r, done)
            && Packed(r) == Parse(done).words
            && (if r.s.dh.stb then |r.text| > 0 && done == r.text[..|r.text| - 1] else Parse(done) == Parse(r.text))
  {
    if ins == [] {
      done := [];
    } else {
      var before := PacksWhatIsParsed(s, ins[..|ins| - 1]);
      done := FollowsStep(After(s, ins[..|ins| - 1]), ins[|ins| - 1], before);
    }
  }

  // What the host prints.

  const NEWLINE: Byte7 := LF

  /** The digits of `%x`: no leading zeros. */
  function Hex(v: Word32): seq<Byte7> {
    if v < 16 then [GxChar(v)] else Hex(v / 16) + [GxChar(v % 16)]
  }

  /** The commands the host sends; a read carries no payload. */
  type Command = w: Word | w.kind != SPECIAL && (w.kind == DATA ==> w.payload == 0) witness Word(0, 0)

  /** The letter a command begins with. */
  function LetterOf(k: Kind): Byte7
    requires k != SPECIAL
  {
    if k == ADDR then 'A' as int else if k == DATA then 'R' as int else 'W' as int
  }

  /** An address with all eight digits, a read, or a write with as few digits as will do, none for zero. */
  function Print(w: Command): seq<Byte7> {
    if w.kind == ADDR then ['A' as int] + Chars(Nibbles(w.payload, 8))
    else if w.kind == DATA then ['R' as int, NEWLINE]
    else ['W' as int] + (if w.payload == 0 then [] else Hex(w.payload)) + [NEWLINE]
  }

  function PrintAll(ws: seq<Command>): seq<Byte7> { Flatten(Print, ws) }

  /** `v` shifted left by `n` nibbles. */
  function Scale(v: nat, n: nat): nat
    decreases n
  {
    if n == 0 then v else 16 * Scale(v, n - 1)
  }

  lemma {:induction false} ScaleGrows(v: nat, n: nat, m: nat)
    requires n <= m
    ensures Scale(v, n) <= Scale(v, m)
    decreases m
  {
    if n < m {
      ScaleGrows(v, n, m - 1);
    }
  }

  lemma ScaleEight(v: nat)
    ensures Scale(v, 8) == v * 0x1_0000_0000
  {
    assert Scale(v, 1) == 16 * v;
    assert Scale(v, 3) == 16 * Scale(v, 2) == 16 * 16 * Scale(v, 1);
    assert Scale(v, 5) == 16 * Scale(v, 4) == 16 * 16 * Scale(v, 3);
    assert Scale(v, 7) == 16 * Scale(v, 6) == 16 * 16 * Scale(v, 5);
  }

  /** A printed digit extends the open word by its value. */
  lemma TakesDigit(p: Parser, k: Kind, x: Word32, d: Bits5)
    requires d < 16 && p.open == [Word(k, x)]
    ensures Take(p, GxChar(d)) == p.(open := [Word(k, (x * 16 + d) % 0x1_0000_0000)])
  {
    assert Digit(GxChar(d)) == [d];
  }

  /** One nibble moves from the top of the shift register `s` to the bottom of the value `x` read so far. */
  lemma MoveNibble(x: Word32, s: Word32, v: Word32, k: nat) returns (x': Word32)
    requires k < 8 && x * 0x1_0000_0000 + s == Scale(v, k)
    ensures x' == (x * 16 + TopNibble(s)) % 0x1_0000_0000
    ensures x' * 0x1_0000_0000 + ShiftNibble(s) == Scale(v, k + 1)
  {
    var y: int := x * 16 + TopNibble(s);
    ScaleGrows(v, k + 1, 8);
    ScaleEight(v);
    assert y * 0x1_0000_0000 + ShiftNibble(s) == Scale(v, k + 1);
    assert 0 <= y < 0x1_0000_0000;
    x' := y;
  }

  /** The next digit moves from the shift register to the open word. */
  lemma ReadsNibble(p: Parser, kind: Kind, x: Word32, s: Word32, n: nat)
    requires n > 0 && p.open == [Word(kind, x)]
    ensures TakeAll(p, Chars(Nibbles(s, n)))
         == TakeAll(p.(open := [Word(kind, (x * 16 + TopNibble(s)) % 0x1_0000_0000)]), Chars(Nibbles(ShiftNibble(s), n - 1)))
  {
    TakesDigit(p, kind, x, TopNibble(s));
    NibblesFront(s, n);
    TakeFront(p, Chars(Nibbles(s, n)));
  }

  /** Reading the digits still in the shift register completes the printed value. */
  lemma {:induction false} ReadNibbles(p: Parser, kind: Kind, x: Word32, s: Word32, v: Word32, k: nat)
    requires k <= 8 && x * 0x1_0000_0000 + s == Scale(v, k) && p.open == [Word(kind, x)]
    ensures TakeAll(p, Chars(Nibbles(s, 8 - k))) == p.(open := [Word(kind, v)])
    decreases 8 - k
  {
    if k == 8 {
      ScaleEight(v);
      assert p.open == [Word(kind, v)];
    } else {
      ReadsNibble(p, kind, x, s, 8 - k);
      var x' := MoveNibble(x, s, v, k);
      ReadNibbles(p.(open := [Word(kind, x')]), kind, x', ShiftNibble(s), v, k + 1);
    }
  }

  lemma NibblesFront(s: Word32, n: nat)
    requires n > 0
    ensures Chars(Nibbles(s, n))[0] == GxChar(TopNibble(s))
    ensures Chars(Nibbles(s, n))[1..] == Chars(Nibbles(ShiftNibble(s), n - 1))
  {}

  lemma ReadEight(p: Parser, k: Kind, v: Word32)
    requires p.open == [Word(k, 0)]
    ensures TakeAll(p, Chars(Nibbles(v, 8))) == p.(open := [Word(k, v)])
  {
    ReadNibbles(p, k, 0, v, v, 0);
  }

  /** The units of a word are those of no other: they tell its kind, and its payload or, of a special word, its tag. */
  lemma UnitsTellApart(v: Word, w: Word)
    ensures Units(v) == Units(w) <==>
            v.kind == w.kind && (if v.kind == SPECIAL then Tag5(v.payload) == Tag5(w.payload) else v.payload == w.payload)
  {
    if Units(v) == Units(w) && v.kind != SPECIAL {
      var p: Parser := Parser([], [Word(DATA, 0)]);
      assert Units(v)[1..] == Nibbles(v.payload, 8);
      assert Units(w)[1..] == Nibbles(w.payload, 8);
      ReadEight(p, DATA, v.payload);
      ReadEight(p, DATA, w.payload);
    }
  }

  lemma HexSnoc(v: Word32, high: Word32, digit: Bits5)
    requires v >= 16 && high == v / 16 && digit == v % 16
    ensures Hex(v) == Hex(high) + [GxChar(digit)] && (high * 16 + digit) % 0x1_0000_0000 == v
  {}

  lemma {:induction false} ReadHex(p: Parser, k: Kind, v: Word32)
    requires p.open == [Word(k, 0)]
    ensures TakeAll(p, Hex(v)) == p.(open := [Word(k, v)])
  {
    if v < 16 {
      TakesDigit(p, k, 0, v);
      TakeSnoc(p, [], GxChar(v));
      assert [] + [GxChar(v)] == Hex(v);
    } else {
      var high: Word32, digit: Bits5 := v / 16, v % 16;
      HexSnoc(v, high, digit);
      ReadHex(p, k, high);
      TakesDigit(p.(open := [Word(k, high)]), k, high, digit);
      TakeSnoc(p, Hex(high), GxChar(digit));
    }
  }

  /** A command letter ends the open word and opens the next. */
  lemma TakesLetter(p: Parser, k: Kind)
    requires k != SPECIAL
    ensures TakeAll(p, [LetterOf(k)]) == Parser(p.words + p.open, [Word(k, 0)])
  {
    TakeSnoc(p, [], LetterOf(k));
    assert [] + [LetterOf(k)] == [LetterOf(k)];
  }

  lemma ReadAddress(p: Parser, v: Word32)
    ensures TakeAll(p, Print(Word(ADDR, v))) == Parser(p.words + p.open, [Word(ADDR, v)])
  {
    TakesLetter(p, ADDR);
    TakeAppend(p, [LetterOf(ADDR)], Chars(Nibbles(v, 8)));
    ReadEight(Parser(p.words + p.open, [Word(ADDR, 0)]), ADDR, v);
  }

  lemma ReadRead(p: Parser)
    ensures TakeAll(p, Print(Word(DATA, 0))) == Parser(p.words + p.open + [Word(DATA, 0)], [])
  {
    TakesLetter(p, DATA);
    TakeSnoc(p, [LetterOf(DATA)], NEWLINE);
    assert [LetterOf(DATA)] + [NEWLINE] == Print(Word(DATA, 0));
  }

  /** After a printed command the parser has it: an address still open, the others complete. */
  lemma ReadCommand(p: Parser, w: Command)
    ensures TakeAll(p, Print(w)) ==
            if w.kind == ADDR then Parser(p.words + p.open, [w]) else Parser(p.words + p.open + [w], [])
  {
    if w.kind == ADDR {
      ReadAddress(p, w.payload);
    } else if w.kind == DATA {
      ReadRead(p);
    } else {
      ReadWrite(p, w.payload);
    }
  }

  lemma ReadWrite(p: Parser, v: Word32)
    ensures TakeAll(p, Print(Word(ACK, v))) == Parser(p.words + p.open + [Word(ACK, v)], [])
  {
    var hex := if v == 0 then [] else Hex(v);
    var q := Parser(p.words + p.open, [Word(ACK, 0)]);
    TakesLetter(p, ACK);
    TakeAppend(p, [LetterOf(ACK)], hex);
    if v != 0 {
      ReadHex(q, ACK, v);
    }
    TakeSnoc(p, [LetterOf(ACK)] + hex, NEWLINE);
  }

  lemma ParseSnoc(ws: seq<Command>, w: Command)
    ensures Parse(PrintAll(ws + [w])) == TakeAll(Parse(PrintAll(ws)), Print(w))
  {
    FlattenSnoc(Print, ws, w);
    TakeAppend(NONE, PrintAll(ws), Print(w));
  }

  /** The parser has the commands `ws`, the last one open if it is an address. */
  predicate HasParsed(p: Parser, ws: seq<Command>) {
    && p.words + p.open == ws
    && p.open == (if ws != [] && ws[|ws| - 1].kind == ADDR then [ws[|ws| - 1]] else [])
  }

  lemma ParsesOneMore(p: Parser, ws: seq<Command>, w: Command)
    requires HasParsed(p, ws)
    ensures HasParsed(TakeAll(p, Print(w)), ws + [w])
  {
    ReadCommand(p, w);
  }

  lemma ReadOneMore(ws: seq<Command>, w: Command)
    requires HasParsed(Parse(PrintAll(ws)), ws)
    ensures HasParsed(Parse(PrintAll(ws + [w])), ws + [w])
  {
    ParseSnoc(ws, w);
    ParsesOneMore(Parse(PrintAll(ws)), ws, w);
  }

  lemma ReadNoCommands()
    ensures HasParsed(Parse(PrintAll([])), [])
  {}

  lemma {:induction false} ReadCommands(ws: seq<Command>)
    ensures HasParsed(Parse(PrintAll(ws)), ws)
  {
    hide *;
    if ws == [] {
      ReadNoCommands();
    } else {
      var init, w := ws[..|ws| - 1], ws[|ws| - 1];
      ReadCommands(init);
      ReadOneMore(init, w);
      assert ws == init + [w];
    }
  }

  /** Command round trip: what the host prints, ended by a newline, is packed into exactly its commands. */
  lemma CommandRoundTrip(ws: seq<Command>)
    ensures Parse(PrintAll(ws) + [NEWLINE]) == Parser(ws, [])
  {
    ReadCommands(ws);
    TakeSnoc(NONE, PrintAll(ws), NEWLINE);
  }

  // What the parser makes of other text.

  /** The fill character may stand anywhere. */
  lemma FillIgnored(p: Parser, a: seq<Byte7>, b: seq<Byte7>)
    ensures TakeAll(p, a + [FILL] + b) == TakeAll(p, a + b)
  {
    TakeAppend(p, a + [FILL], b);
    TakeAppend(p, a, b);
    TakeSnoc(p, a, FILL);
  }

  lemma {:induction false} WordsBefore(p: Parser, text: seq<Byte7>)
    ensures TakeAll(p, text).words == p.words + TakeAll(p.(words := []), text).words
    ensures TakeAll(p, text).open == TakeAll(p.(words := []), text).open
  {
    if text != [] {
      WordsBefore(p, text[..|text| - 1]);
      var q := TakeAll(p.(words := []), text[..|text| - 1]);
      Associate(p.words, q.words, q.open);
    }
  }

  /** A reset character drops an unfinished word, and the text after it is parsed afresh. */
  lemma ResetForgets(a: seq<Byte7>, b: seq<Byte7>)
    ensures Parse(a + [HbDechex.RESET_CHAR] + b)
         == Parser(Parse(a).words + Parse(b).words, Parse(b).open)
  {
    TakeAppend(NONE, a + [HbDechex.RESET_CHAR], b);
    TakeSnoc(NONE, a, HbDechex.RESET_CHAR);
    WordsBefore(Parser(Parse(a).words, []), b);
  }

  /** Any character but a digit, the fill or a reset ends the commands before it. */
  lemma AnythingEnds(ws: seq<Command>, c: Byte7)
    requires Digit(c) == [] && c != FILL && c != HbDechex.RESET_CHAR
    ensures Parse(PrintAll(ws) + [c]).words == ws
  {
    ReadCommands(ws);
    TakeSnoc(NONE, PrintAll(ws), c);
  }

  /** The number that hex digits stand for. */
  function Number(digits: seq<Bits5>): nat {
    if digits == [] then 0 else 16 * Number(digits[..|digits| - 1]) + digits[|digits| - 1]
  }

  /** Of a number of any length the low 32 bits are kept. */
  lemma {:induction false} ReadsModulo(p: Parser, k: Kind, digits: seq<Bits5>)
    requires p.open == [Word(k, 0)] && forall i :: 0 <= i < |digits| ==> digits[i] < 16
    ensures TakeAll(p, Chars(digits)) == p.(open := [Word(k, Number(digits) % 0x1_0000_0000)])
  {
    if digits != [] {
      var init, d: Bits5 := digits[..|digits| - 1], digits[|digits| - 1];
      var x: Word32 := Number(init) % 0x1_0000_0000;
      ReadsModulo(p, k, init);
      assert Chars(digits) == Chars(init) + [GxChar(d)];
      TakeSnoc(p, Chars(init), GxChar(d));
      TakesDigit(p.(open := [Word(k, x)]), k, x, d);
      Wraps(Number(init), d);
    }
  }

  lemma Wraps(n: nat, d: nat)
    ensures (n % 0x1_0000_0000 * 16 + d) % 0x1_0000_0000 == (16 * n + d) % 0x1_0000_0000
  {}

  // What is printed never resets the port.

  predicate NoReset(text: seq<Byte7>) { forall k :: 0 <= k < |text| ==> text[k] != HbDechex.RESET_CHAR }

  lemma {:induction false} HexNoReset(v: Word32)
    ensures NoReset(Hex(v))
  {
    if v >= 16 {
      HexNoReset(v / 16);
    }
  }

  lemma NibblesNoReset(v: Word32, n: nat)
    ensures NoReset(Chars(Nibbles(v, n)))
  {
    forall k | 0 <= k < n ensures Chars(Nibbles(v, n))[k] != HbDechex.RESET_CHAR {
      assert Nibbles(v, n)[k] in Nibbles(v, n);
    }
  }

  lemma PrintNoReset(w: Command)
    ensures NoReset(Print(w))
  {
    if w.kind == ADDR {
      NibblesNoReset(w.payload, 8);
    } else if w.kind == ACK {
      HexNoReset(w.payload);
    }
  }

  lemma {:induction false} PrintAllNoReset(ws: seq<Command>)
    ensures NoReset(PrintAll(ws))
  {
    if ws != [] {
      PrintAllNoReset(ws[..|ws| - 1]);
      PrintNoReset(ws[|ws| - 1]);
    }
  }
}
