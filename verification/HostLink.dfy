/**
 * The host's end of the text link: how HEXBUS::readword picks words out of the
 * response characters, against a reader of whole words and line ends.
 */
module HostLink {
  import opened HexWord
  import opened Sequences
  import opened CommandStream

  /** What the host remembers of the bus. */
  datatype Registers = Registers(
    lastAddr: Word32, addrSet: bool, inc: bool, acks: nat, interrupt: bool, busErr: bool)

  /** The last command letter seen, whether white space has followed it, and the registers. */
  datatype Host = Host(cmd: Byte7, space: bool, regs: Registers)

  predicate IsSpace(c: Byte7) { c == 32 || 9 <= c <= 13 }

  /** The address after one transfer. */
  function Bump(r: Registers): Word32 {
    if r.inc then (r.lastAddr + 4) % 0x1_0000_0000 else r.lastAddr
  }

  /** A response word ends: letter `cmd`, digits worth `value`. */
  function Note(r: Registers, cmd: Byte7, value: Word32): Registers {
    if cmd == 'R' as int then r.(lastAddr := Bump(r))
    else if cmd == 'K' as int then r.(lastAddr := Bump(r), acks := r.acks + 1)
    else if cmd == 'I' as int then r.(interrupt := true)
    else if cmd == 'E' as int then r.(busErr := true)
    else if cmd == 'A' as int then r.(addrSet := true, inc := value % 2 == 0, lastAddr := value - value % 4)
    else if cmd == 'T' as int then r.(addrSet := false)
    else r
  }

  /** A character that is not a digit ends the word before it; a letter also begins the next. */
  function EndWord(h: Host, value: Word32, c: Byte7): Host {
    Host(if IsSpace(c) then h.cmd else c, IsSpace(c), if h.space then h.regs else Note(h.regs, h.cmd, value))
  }

  /** The word is returned, an error is thrown with the address it carries, or there is nothing more to read. */
  datatype Read =
    | Got(value: Word32, h: Host, rest: seq<Byte7>)
    | Threw(at: Word32, h: Host, rest: seq<Byte7>)
    | Blocked(h: Host, rest: seq<Byte7>)

  /** readword, from the value read so far and the idle notes it will still put up with. */
  function ReadWord(h: Host, value: Word32, patience: nat, text: seq<Byte7>): Read
    decreases |text|
  {
    if text == [] then Blocked(h, [])
    else
      var c, rest := text[0], text[1..];
      if Digit(c) != [] then
        ReadWord(h.(space := false), (value * 16 + Digit(c)[0]) % 0x1_0000_0000, patience, rest)
      else if h.space then ReadWord(EndWord(h, value, c), 0, patience, rest)
      else if h.cmd == 'R' as int then Got(value, EndWord(h, value, c), rest)
      else if h.cmd == 'E' as int then Threw(h.regs.lastAddr, EndWord(h, value, c), rest)
      else if h.cmd == 'Z' as int then
        if patience <= 1 then Threw(0, h, rest) else ReadWord(EndWord(h, value, c), 0, patience - 1, rest)
      else ReadWord(EndWord(h, value, c), 0, patience, rest)
  }

  // The response text as words and line ends.

  datatype Item = Line | Shown(word: Word)

  function Wire(i: Item): (s: seq<Byte7>)
    ensures |s| > 0
  {
    match i
    case Line => [CR, LF]
    case Shown(w) => Render(w)
  }

  function WireAll(items: seq<Item>): seq<Byte7> { Flatten(Wire, items) }

  /** The digits of a word, as a number. */
  function Value(w: Word): Word32 { if w.kind == SPECIAL then 0 else w.payload }

  function Letter(w: Word): Byte7 { GxChar(Units(w)[0]) }

  /** What the end of an item does to the registers. */
  function Ended(r: Registers, i: Item): Registers {
    match i
    case Line => r
    case Shown(w) => Note(r, Letter(w), Value(w))
  }

  datatype ItemRead =
    | GotItem(value: Word32, regs: Registers, rest: seq<Item>)
    | ThrewItem(at: Word32, regs: Registers)
    | BlockedItem

  /** A reader of whole items: each takes effect when the next one begins. */
  function ReadItems(r: Registers, patience: nat, items: seq<Item>): ItemRead
    decreases |items|
  {
    if |items| <= 1 then BlockedItem
    else
      var rest := items[1..];
      match items[0]
      case Line => ReadItems(r, patience, rest)
      case Shown(w) =>
        var r' := Ended(r, items[0]);
        if w.kind == DATA then GotItem(w.payload, r', rest)
        else if Letter(w) == 'E' as int then ThrewItem(r.lastAddr, r')
        else if Letter(w) == 'Z' as int then
          if patience <= 1 then ThrewItem(0, r) else ReadItems(r', patience - 1, rest)
        else ReadItems(r', patience, rest)
  }

  /** The first character of item `i` has just been read. */
  predicate Began(h: Host, i: Item) {
    match i
    case Line => h.space
    case Shown(w) => !h.space && h.cmd == Letter(w)
  }

  /** All of item `i` has been read, its digits amounting to `value`. */
  predicate Holds(h: Host, value: Word32, i: Item) {
    Began(h, i) && (i.Shown? ==> value == Value(i.word))
  }

  /** The host is inside `items[0]`, with the rest of it and the other items still to come. */
  predicate Sees(h: Host, text: seq<Byte7>, items: seq<Item>) {
    items != [] && Began(h, items[0]) && text == Wire(items[0])[1..] + WireAll(items[1..])
  }

  /** Two results agree: the same value or error, and the host within the same item. */
  predicate Agrees(r: Read, i: ItemRead) {
    match i
    case GotItem(v, regs, rest) => r.Got? && r.value == v && r.h.regs == regs && Sees(r.h, r.rest, rest)
    case ThrewItem(at, regs) => r.Threw? && r.at == at && r.h.regs == regs
    case BlockedItem => r.Blocked?
  }

  /** A word whose letter is text, as all words but the unused special ones are. */
  predicate Readable(i: Item) { i.Shown? ==> IsText(Letter(i.word)) }

  lemma Letters(w: Word)
    requires IsText(Letter(w))
    ensures Digit(Letter(w)) == [] && !IsSpace(Letter(w))
    ensures Letter(w) == 'R' as int <==> w.kind == DATA
    ensures Letter(w) == 'K' as int <==> w.kind == ACK
  {
    assert 16 <= Units(w)[0] < 32;
  }

  predicate IsDigit(c: Byte7) { |Digit(c)| == 1 && c != FILL && c != 'T' as int }

  /** The value after more digits. */
  function Extend(value: Word32, digits: seq<Byte7>): Word32
    requires forall c <- digits :: IsDigit(c)
    decreases |digits|
  {
    if digits == [] then value
    else
      assert IsDigit(digits[0]);
      Extend((value * 16 + Digit(digits[0])[0]) % 0x1_0000_0000, digits[1..])
  }

  lemma {:induction false} ReadsDigits(h: Host, value: Word32, patience: nat, digits: seq<Byte7>, rest: seq<Byte7>)
    requires !h.space && forall c <- digits :: IsDigit(c)
    ensures ReadWord(h, value, patience, digits + rest) == ReadWord(h, Extend(value, digits), patience, rest)
    decreases |digits|
  {
    if digits == [] {
      assert digits + rest == rest;
    } else {
      assert digits[0] in digits;
      assert (digits + rest)[1..] == digits[1..] + rest;
      ReadsDigits(h, (value * 16 + Digit(digits[0])[0]) % 0x1_0000_0000, patience, digits[1..], rest);
    }
  }

  /** Digits extend the value as they extend the command parser's open word. */
  lemma {:induction false} ExtendsAsParsed(k: Kind, value: Word32, digits: seq<Byte7>)
    requires forall c <- digits :: IsDigit(c)
    ensures TakeAll(Parser([], [Word(k, value)]), digits) == Parser([], [Word(k, Extend(value, digits))])
    decreases |digits|
  {
    if digits != [] {
      var c, p := digits[0], Parser([], [Word(k, value)]);
      assert c in digits;
      TakeSnoc(p, [], c);
      TakeAppend(p, [c], digits[1..]);
      assert [c] + digits[1..] == digits;
      ExtendsAsParsed(k, (value * 16 + Digit(c)[0]) % 0x1_0000_0000, digits[1..]);
    }
  }

  lemma DigitChars(v: Word32, n: nat)
    ensures forall c <- Chars(Nibbles(v, n)) :: IsDigit(c)
  {
    var nibbles := Nibbles(v, n);
    forall c <- Chars(nibbles) ensures IsDigit(c) {
      var k :| 0 <= k < n && c == GxChar(nibbles[k]);
      assert nibbles[k] in nibbles;
    }
  }

  lemma ReadsPayload(h: Host, v: Word32, patience: nat, rest: seq<Byte7>)
    requires !h.space
    ensures ReadWord(h, 0, patience, Chars(Nibbles(v, 8)) + rest) == ReadWord(h, v, patience, rest)
  {
    DigitChars(v, 8);
    ReadEight(Parser([], [Word(DATA, 0)]), DATA, v);
    ExtendsAsParsed(DATA, 0, Chars(Nibbles(v, 8)));
    ReadsDigits(h, 0, patience, Chars(Nibbles(v, 8)), rest);
  }

  lemma ReadsLineFeed(h: Host, patience: nat, rest: seq<Byte7>)
    requires h.space
    ensures ReadWord(h, 0, patience, [LF] + rest) == ReadWord(h, 0, patience, rest)
  {
    assert ([LF] + rest)[1..] == rest;
    assert EndWord(h, 0, LF) == h;
  }

  lemma RestOfWord(w: Word)
    ensures Render(w)[1..] == if w.kind == SPECIAL then [] else Chars(Nibbles(w.payload, 8))
    ensures Render(w) == [Letter(w)] + Render(w)[1..]
  {}

  /** The rest of an item's characters are its digits, or a line feed that is ignored. */
  lemma FinishesItem(h: Host, patience: nat, i: Item, rest: seq<Byte7>) returns (value: Word32)
    requires Began(h, i)
    ensures Holds(h, value, i)
    ensures ReadWord(h, 0, patience, Wire(i)[1..] + rest) == ReadWord(h, value, patience, rest)
  {
    match i
    case Line =>
      value := 0;
      assert Wire(i)[1..] == [LF];
      ReadsLineFeed(h, patience, rest);
    case Shown(w) =>
      value := Value(w);
      RestOfWord(w);
      if w.kind == SPECIAL {
        assert [] + rest == rest;
      } else {
        ReadsPayload(h, w.payload, patience, rest);
      }
  }

  /** The first character of the next item ends the one before. */
  lemma NextItemBegins(h: Host, value: Word32, i: Item, j: Item)
    requires Holds(h, value, i) && Readable(i) && Readable(j)
    ensures var h' := EndWord(h, value, Wire(j)[0]); Began(h', j) && h'.regs == Ended(h.regs, i)
    ensures Digit(Wire(j)[0]) == []
  {
    match j
    case Line =>
    case Shown(w) =>
      Letters(w);
      assert Wire(j)[0] == Letter(w);
  }

  lemma FlattenHead<S, T>(f: S -> seq<T>, s: seq<S>)
    requires s != []
    ensures Flatten(f, s) == f(s[0]) + Flatten(f, s[1..])
  {
    assert s == [s[0]] + s[1..];
    FlattenAppend(f, [s[0]], s[1..]);
    FlattenSnoc(f, [], s[0]);
  }

  lemma WireSplits(items: seq<Item>)
    requires items != []
    ensures WireAll(items) != [] && WireAll(items)[0] == Wire(items[0])[0]
    ensures WireAll(items)[1..] == Wire(items[0])[1..] + WireAll(items[1..])
  {
    FlattenHead(Wire, items);
  }

  /** The character after a whole item, seen by the host: what readword does with it. */
  lemma ReadsNextItem(h: Host, value: Word32, patience: nat, i: Item, items: seq<Item>)
    requires Holds(h, value, i) && Readable(i) && items != [] && Readable(items[0])
    ensures var h' := EndWord(h, value, Wire(items[0])[0]);
            var rest := Wire(items[0])[1..] + WireAll(items[1..]);
            && Sees(h', rest, items) && h'.regs == Ended(h.regs, i)
            && ReadWord(h, value, patience, WireAll(items)) ==
               if i.Line? then ReadWord(h', 0, patience, rest)
               else if Letter(i.word) == 'R' as int then Got(value, h', rest)
               else if Letter(i.word) == 'E' as int then Threw(h.regs.lastAddr, h', rest)
               else if Letter(i.word) == 'Z' as int then
                 if patience <= 1 then Threw(0, h, rest) else ReadWord(h', 0, patience - 1, rest)
               else ReadWord(h', 0, patience, rest)
  {
    WireSplits(items);
    NextItemBegins(h, value, i, items[0]);
  }

  /** readword, on the characters of a sequence of words and line ends, is the reader of items. */
  lemma {:induction false} ReadsItems(h: Host, patience: nat, text: seq<Byte7>, items: seq<Item>)
    requires Sees(h, text, items) && forall x <- items :: Readable(x)
    ensures Agrees(ReadWord(h, 0, patience, text), ReadItems(h.regs, patience, items))
    decreases |items|
  {
    var i, rest := items[0], items[1..];
    var value := FinishesItem(h, patience, i, WireAll(rest));
    if rest == [] {
      assert WireAll(rest) == [];
    } else {
      assert i in items && rest[0] in items;
      if i.Shown? {
        Letters(i.word);
      }
      ReadsNextItem(h, value, patience, i, rest);
      var h' := EndWord(h, value, Wire(rest[0])[0]);
      var text' := Wire(rest[0])[1..] + WireAll(rest[1..]);
      ReadsItems(h', patience, text', rest);
      if patience > 1 {
        ReadsItems(h', patience - 1, text', rest);
      }
    }
  }
}
