/**
 * HEXBUS: reads and writes as the host program makes them, over the text link
 * of HostLink, with its cached copy of the device's address register.
 */
module HexHost {
  import opened HexWord
  import opened Sequences
  import opened BusMachine
  import opened CommandStream
  import opened HostLink

  /** `a` with its lowest bit set when the address is not to advance. */
  function Tagged(a: Word32, inc: bool): Word32 { if inc then a else a - a % 2 + 1 }

  /** The host's copy of the device's address register, if it has one. */
  datatype Cache = Unknown | Known(addr: Word32, inc: bool)

  function CacheOf(r: Registers): Cache { if r.addrSet then Known(r.lastAddr, r.inc) else Unknown }

  /** The device's address register is already what the command would set. */
  predicate Cached(c: Cache, x: Word32) { c == Known(x, x % 2 == 0) }

  /** The address command to be sent before a transfer, if any. */
  function AddressFor(c: Cache, x: Word32): seq<Command> { if Cached(c, x) then [] else [Word(ADDR, x)] }

  /** Where `n` transfers from `a` end. */
  function AddressAfter(a: Word32, inc: bool, n: nat): Word32 {
    if inc then (a + 4 * n) % 0x1_0000_0000 else a
  }

  datatype Status = Complete | BusError(at: Word32) | Starved | AddressMismatch

  // readv.

  function ReadWords(h: Host, n: nat, text: seq<Byte7>): (seq<Word32>, Read) {
    if n == 0 then ([], Got(0, h, text))
    else
      var (buf, r) := ReadWords(h, n - 1, text);
      if !r.Got? then (buf, r)
      else
        var next := ReadWord(r.h, 0, 3, r.rest);
        (if next.Got? then buf + [next.value] else buf, next)
  }

  /** The registers once a read has been addressed, before any answer. */
  function Addressed(r: Registers, a: Word32, inc: bool): Registers {
    r.(lastAddr := a, addrSet := true, inc := inc)
  }

  function ReadStatus(a: Word32, inc: bool, len: nat, buf: seq<Word32>, r: Read): Status {
    match r
    case Blocked(_, _) => Starved
    case Threw(_, _, _) => BusError(AddressAfter(a, inc, |buf|))
    case Got(_, h, _) => if h.regs.lastAddr == AddressAfter(a, inc, len) then Complete else AddressMismatch
  }

  function Reads(n: nat): seq<Command> { seq(n, _ => Word(DATA, 0)) }

  /** The commands of a read of which `n` words have been asked for. */
  function ReadCommands(c: Cache, a: Word32, inc: bool, n: nat): seq<Command> {
    AddressFor(c, Tagged(a, inc)) + Reads(n)
  }

  /** What a transfer returns, leaves behind and sends. */
  datatype Transfer = Transfer(status: Status, buf: seq<Word32>, h: Host, rest: seq<Byte7>, sent: seq<Byte7>)

  /** readv: the words are asked for and read one at a time. */
  function ReadV(h: Host, a: Word32, inc: bool, len: int, text: seq<Byte7>): Transfer {
    if len <= 0 then Transfer(Complete, [], h, text, [])
    else
      var (buf, r) := ReadWords(h.(regs := Addressed(h.regs, a, inc)), len, text);
      var asked := if r.Got? then len else |buf| + 1;
      Transfer(ReadStatus(a, inc, len, buf, r), buf, r.h, r.rest, PrintAll(ReadCommands(CacheOf(h.regs), a, inc, asked)))
  }

  // What the response stream holds.

  /** Line ends, bus responses, interrupt and idle notes. */
  predicate Legal(i: Item) {
    i.Shown? ==> IsBusResponse(i.word) || i.word == INT_WORD || i.word == IDLE_WORD
  }

  /** The bus responses of a stream, in order. */
  function BusWords(items: seq<Item>): seq<Word> {
    if items == [] then []
    else (if items[0].Shown? && IsBusResponse(items[0].word) then [items[0].word] else []) + BusWords(items[1..])
  }

  /** Never three idle notes without a data word between them, `n` of the three being left. */
  predicate Patient(items: seq<Item>, n: nat) {
    items != [] ==>
      match items[0]
      case Line => Patient(items[1..], n)
      case Shown(w) =>
        if w == IDLE_WORD then n > 1 && Patient(items[1..], n - 1)
        else if w.kind == DATA then Patient(items[1..], 3)
        else Patient(items[1..], n)
  }

  /** A word that ends the reading of a word: data, or an error. */
  predicate EndsRead(w: Word) { w.kind == DATA || w == RSP_BUS_ERROR }

  /** A stream the host can read through: legal, not too idle, and something follows the last data word or error. */
  predicate Flows(items: seq<Item>, n: nat) {
    && items != [] && (forall i <- items :: Legal(i)) && Patient(items, n)
    && (items[|items| - 1].Shown? ==> !EndsRead(items[|items| - 1].word))
  }

  /** Registers alike but for the interrupt flag. */
  predicate Alike(r: Registers, s: Registers) { r.(interrupt := s.interrupt) == s }

  function DataWords(vals: seq<Word32>): seq<Word> { seq(|vals|, i requires 0 <= i < |vals| => Word(DATA, vals[i])) }

  /** What may come before the first data word of a read: address echoes, and the word a reset leaves. */
  predicate IsLead(lead: seq<Word>) { forall w <- lead :: w.kind == ADDR || w == RSP_RESET }

  function NoteAll(r: Registers, ws: seq<Word>): Registers
    decreases |ws|
  {
    if ws == [] then r else NoteAll(Ended(r, Shown(ws[0])), ws[1..])
  }

  /** Words that leave the host believing what it believed. */
  predicate NoNews(r: Registers, lead: seq<Word>) { IsLead(lead) && Alike(NoteAll(r, lead), r) }

  lemma {:induction false} NoteAllAlike(r: Registers, s: Registers, ws: seq<Word>)
    requires Alike(r, s)
    ensures Alike(NoteAll(r, ws), NoteAll(s, ws))
    decreases |ws|
  {
    if ws != [] {
      EndedAlike(r, s, Shown(ws[0]));
      NoteAllAlike(Ended(r, Shown(ws[0])), Ended(s, Shown(ws[0])), ws[1..]);
    }
  }

  lemma NotedAlike(r: Registers, s: Registers, letter: Byte7, value: Word32)
    requires Alike(r, s)
    ensures Alike(Note(r, letter, value), Note(s, letter, value))
  {}

  lemma EndedAlike(r: Registers, s: Registers, i: Item)
    requires Alike(r, s)
    ensures Alike(Ended(r, i), Ended(s, i))
  {
    if i.Shown? {
      NotedAlike(r, s, Letter(i.word), Value(i.word));
    }
  }

  lemma LegalLetters(i: Item)
    requires Legal(i) && i.Shown?
    ensures Readable(i)
    ensures i.word.kind == ADDR ==> Letter(i.word) == 'A' as int
    ensures i.word == INT_WORD ==> Letter(i.word) == 'I' as int
    ensures Letter(i.word) == 'Z' as int <==> i.word == IDLE_WORD
    ensures Letter(i.word) == 'E' as int <==> i.word == RSP_BUS_ERROR
    ensures Letter(i.word) == 'T' as int <==> i.word == RSP_RESET
    ensures i.word.kind == DATA ==> Letter(i.word) == 'R' as int
  {}

  /** What is left of the idle allowance after an item. */
  function Allowance(i: Item, n: nat): int {
    if i == Shown(IDLE_WORD) then n - 1 else if i.Shown? && i.word.kind == DATA then 3 else n
  }

  lemma FlowsOn(items: seq<Item>, n: nat)
    requires Flows(items, n) && |items| > 1
    ensures Allowance(items[0], n) >= 0 && Flows(items[1..], Allowance(items[0], n))
    ensures items[0] == Shown(IDLE_WORD) ==> n > 1
  {
    var rest := items[1..];
    assert rest[|rest| - 1] == items[|items| - 1];
    assert forall x <- rest :: x in items;
  }

  predicate IsBusItem(i: Item) { i.Shown? && IsBusResponse(i.word) }

  lemma FirstBusWord(items: seq<Item>, w: Word, post: seq<Word>)
    requires items != [] && BusWords(items) == [w] + post
    ensures if IsBusItem(items[0]) then items[0] == Shown(w) && BusWords(items[1..]) == post
            else BusWords(items[1..]) == [w] + post
    ensures |items| == 1 ==> items[0] == Shown(w) && post == []
  {
    if IsBusItem(items[0]) {
      assert BusWords(items)[0] == items[0].word;
      assert BusWords(items)[1..] == BusWords(items[1..]);
    } else {
      assert BusWords(items) == BusWords(items[1..]);
    }
  }

  /** Nothing but a data word or an error ends the reading of a word. */
  lemma ReadsPast(r: Registers, items: seq<Item>, n: nat)
    requires Flows(items, n) && |items| > 1
    requires items[0].Shown? ==> !EndsRead(items[0].word)
    ensures Allowance(items[0], n) >= 0
    ensures ReadItems(r, n, items) == ReadItems(Ended(r, items[0]), Allowance(items[0], n), items[1..])
    ensures !IsBusItem(items[0]) ==> Alike(Ended(r, items[0]), r)
  {
    assert items[0] in items;
    if items[0].Shown? {
      LegalLetters(items[0]);
    }
  }

  lemma ReadsHead(r: Registers, items: seq<Item>, n: nat, w: Word)
    requires |items| > 1 && items[0] == Shown(w) && EndsRead(w)
    ensures Delivers(r, r, items, n, w, items[1..])
  {
    LegalLetters(items[0]);
  }

  lemma NoNewsStill(r: Registers, s: Registers, lead: seq<Word>)
    requires NoNews(r, lead) && Alike(s, r)
    ensures NoNews(s, lead)
  {
    NoteAllAlike(s, r, lead);
  }

  /** The next bus words of the stream are a lead, which brings the registers to `goal`, and data or an error. */
  ghost predicate Waiting(r: Registers, goal: Registers, items: seq<Item>, n: nat, lead: seq<Word>, w: Word, post: seq<Word>) {
    && EndsRead(w) && Flows(items, n) && IsLead(lead) && Alike(NoteAll(r, lead), goal)
    && BusWords(items) == lead + ([w] + post)
  }

  /**
   * Reading an item sequence returns the data word `w`, with the address advanced
   * from `goal`, and leaves `rest`; or throws, if `w` is the error, with that address.
   */
  ghost predicate Delivers(r: Registers, goal: Registers, items: seq<Item>, n: nat, w: Word, rest: seq<Item>) {
    var res := ReadItems(r, n, items);
    if w.kind == DATA then
      res.GotItem? && res.value == w.payload && res.rest == rest && Alike(res.regs, goal.(lastAddr := Bump(goal)))
    else
      res.ThrewItem? && res.at == goal.lastAddr && Alike(res.regs, goal.(busErr := true))
  }

  lemma FirstOfLead(items: seq<Item>, lead: seq<Word>, w: Word, post: seq<Word>)
    requires items != [] && BusWords(items) == lead + ([w] + post)
    ensures var rest := BusWords(items[1..]);
            if !IsBusItem(items[0]) then rest == BusWords(items)
            else if lead == [] then items[0] == Shown(w) && rest == post
            else items[0] == Shown(lead[0]) && rest == lead[1..] + ([w] + post)
    ensures |items| == 1 ==> items[0] == Shown(w)
  {
    hide BusWords, IsBusResponse;
    if lead == [] {
      assert lead + ([w] + post) == [w] + post;
      FirstBusWord(items, w, post);
    } else {
      assert lead + ([w] + post) == [lead[0]] + (lead[1..] + ([w] + post));
      FirstBusWord(items, lead[0], lead[1..] + ([w] + post));
    }
  }

  lemma WaitsPastNoise(r: Registers, goal: Registers, items: seq<Item>, n: nat, lead: seq<Word>, w: Word, post: seq<Word>)
    requires Waiting(r, goal, items, n, lead, w, post) && !IsBusItem(items[0])
    ensures Allowance(items[0], n) >= 0 && |items| > 1
    ensures Waiting(Ended(r, items[0]), goal, items[1..], Allowance(items[0], n), lead, w, post)
    ensures forall rest :: Delivers(Ended(r, items[0]), goal, items[1..], Allowance(items[0], n), w, rest)
                           ==> Delivers(r, goal, items, n, w, rest)
  {
    FirstOfLead(items, lead, w, post);
    FlowsOn(items, n);
    ReadsPast(r, items, n);
    NoteAllAlike(Ended(r, items[0]), r, lead);
  }

  lemma WaitsPastLead(r: Registers, goal: Registers, items: seq<Item>, n: nat, lead: seq<Word>, w: Word, post: seq<Word>)
    requires Waiting(r, goal, items, n, lead, w, post) && IsBusItem(items[0]) && lead != []
    ensures |items| > 1 && Waiting(Ended(r, items[0]), goal, items[1..], n, lead[1..], w, post)
    ensures forall rest :: Delivers(Ended(r, items[0]), goal, items[1..], n, w, rest) ==> Delivers(r, goal, items, n, w, rest)
  {
    FirstOfLead(items, lead, w, post);
    assert lead[0] in lead && items[0] in items;
    assert forall w <- lead[1..] :: w in lead;
    FlowsOn(items, n);
    ReadsPast(r, items, n);
  }

  lemma WaitsNoMore(r: Registers, goal: Registers, items: seq<Item>, n: nat, w: Word, post: seq<Word>)
    requires Waiting(r, goal, items, n, [], w, post) && IsBusItem(items[0])
    ensures |items| > 1 && Delivers(r, goal, items, n, w, items[1..])
    ensures w.kind == DATA ==> Flows(items[1..], 3) && BusWords(items[1..]) == post
  {
    FirstOfLead(items, [], w, post);
    FlowsOn(items, n);
    ReadsHead(r, items, n, w);
  }

  /** The next data word or error is read, past line ends, interrupt and idle notes, a reset and an echo. */
  lemma {:induction false} ReadsNextData(r: Registers, goal: Registers, items: seq<Item>, n: nat, lead: seq<Word>, w: Word, post: seq<Word>)
    returns (rest: seq<Item>)
    requires Waiting(r, goal, items, n, lead, w, post)
    ensures Delivers(r, goal, items, n, w, rest) && (w.kind == DATA ==> Flows(rest, 3) && BusWords(rest) == post)
    decreases |items|
  {
    if !IsBusItem(items[0]) {
      WaitsPastNoise(r, goal, items, n, lead, w, post);
      rest := ReadsNextData(Ended(r, items[0]), goal, items[1..], Allowance(items[0], n), lead, w, post);
    } else if lead != [] {
      WaitsPastLead(r, goal, items, n, lead, w, post);
      rest := ReadsNextData(Ended(r, items[0]), goal, items[1..], n, lead[1..], w, post);
    } else {
      WaitsNoMore(r, goal, items, n, w, post);
      rest := items[1..];
    }
  }

  lemma FlowsReadably(items: seq<Item>, n: nat)
    requires Flows(items, n)
    ensures forall i <- items :: Readable(i)
  {
    forall i <- items ensures Readable(i) {
      if i.Shown? {
        LegalLetters(i);
      }
    }
  }

  /** One call of readword, on the characters. */
  lemma ReadsDataWord(h: Host, text: seq<Byte7>, items: seq<Item>, lead: seq<Word>, v: Word32, post: seq<Word>)
    returns (rest: seq<Item>)
    requires Sees(h, text, items) && Flows(items, 3)
    requires NoNews(h.regs, lead) && BusWords(items) == lead + ([Word(DATA, v)] + post)
    ensures var r := ReadWord(h, 0, 3, text);
            && r.Got? && r.value == v && Sees(r.h, r.rest, rest)
            && Alike(r.h.regs, h.regs.(lastAddr := Bump(h.regs)))
    ensures Flows(rest, 3) && BusWords(rest) == post
  {
    FlowsReadably(items, 3);
    ReadsItems(h, 3, text, items);
    rest := ReadsNextData(h.regs, h.regs, items, 3, lead, Word(DATA, v), post);
  }

  /** One call of readword that meets an error throws it, with the host's address. */
  lemma ReadsErrorWord(h: Host, text: seq<Byte7>, items: seq<Item>, lead: seq<Word>, post: seq<Word>)
    requires Sees(h, text, items) && Flows(items, 3)
    requires NoNews(h.regs, lead) && BusWords(items) == lead + ([RSP_BUS_ERROR] + post)
    ensures var r := ReadWord(h, 0, 3, text);
            r.Threw? && r.at == h.regs.lastAddr && Alike(r.h.regs, h.regs.(busErr := true))
  {
    FlowsReadably(items, 3);
    ReadsItems(h, 3, text, items);
    var rest := ReadsNextData(h.regs, h.regs, items, 3, lead, RSP_BUS_ERROR, post);
  }

  // What the words of a stream leave in the registers.

  lemma NotesOne(r: Registers, w: Word)
    requires Legal(Shown(w))
    ensures var n := Ended(r, Shown(w));
            && n.interrupt == (r.interrupt || w == INT_WORD)
            && n.busErr == (r.busErr || w == RSP_BUS_ERROR)
            && n.acks == r.acks + (if w.kind == ACK then 1 else 0)
            && n.addrSet == (w.kind == ADDR || (r.addrSet && w != RSP_RESET))
            && n.inc == (if w.kind == ADDR then w.payload % 2 == 0 else r.inc)
            && n.lastAddr == (if w.kind == ADDR then w.payload - w.payload % 4
                              else if w.kind == DATA || w.kind == ACK then Bump(r) else r.lastAddr)
  {
    LegalLetters(Shown(w));
    Letters(w);
  }

  /** The flags after any words: set by the interrupt note and by an error, and every acknowledgement counted. */
  lemma {:induction false} NotesTell(r: Registers, ws: seq<Word>)
    requires forall w <- ws :: Legal(Shown(w))
    ensures var n := NoteAll(r, ws);
            && (n.interrupt <==> r.interrupt || INT_WORD in ws)
            && (n.busErr <==> r.busErr || RSP_BUS_ERROR in ws)
            && n.acks == r.acks + |Keep(IsAckWord, ws)|
    decreases |ws|
  {
    if ws != [] {
      NotesOne(r, ws[0]);
      NotesTell(Ended(r, Shown(ws[0])), ws[1..]);
      KeepAppend(IsAckWord, [ws[0]], ws[1..]);
      assert ws == [ws[0]] + ws[1..];
    }
  }

  predicate IsAckWord(w: Word) { w.kind == ACK }

  /** Where the host last heard of its address: a reset makes it forget, an echo makes it know. */
  predicate KnowsAfter(known: bool, ws: seq<Word>)
    decreases |ws|
  {
    if ws == [] then known else KnowsAfter(ws[0].kind == ADDR || (known && ws[0] != RSP_RESET), ws[1..])
  }

  lemma {:induction false} KnowsAsTold(r: Registers, ws: seq<Word>)
    requires forall w <- ws :: Legal(Shown(w))
    ensures NoteAll(r, ws).addrSet <==> KnowsAfter(r.addrSet, ws)
    decreases |ws|
  {
    if ws != [] {
      NotesOne(r, ws[0]);
      KnowsAsTold(Ended(r, Shown(ws[0])), ws[1..]);
    }
  }

  lemma {:induction false} NeverToldAgain(ws: seq<Word>)
    requires forall w <- ws :: w.kind != ADDR
    ensures !KnowsAfter(false, ws)
    decreases |ws|
  {
    if ws != [] {
      NeverToldAgain(ws[1..]);
    }
  }

  /** From the word of a reset until an echo the host has no address, so the next transfer sends one. */
  lemma ForgetsAtReset(r: Registers, ws: seq<Word>, x: Word32)
    requires forall w <- ws :: Legal(Shown(w)) && w.kind != ADDR
    ensures var c := CacheOf(NoteAll(r, [RSP_RESET] + ws)); c == Unknown && AddressFor(c, x) == [Word(ADDR, x)]
  {
    var all := [RSP_RESET] + ws;
    assert all[0] == RSP_RESET && all[1..] == ws;
    KnowsAsTold(r, all);
    NeverToldAgain(ws);
  }

  lemma AddressStep(r: Registers, s: Registers, n: nat)
    requires Alike(s, r.(lastAddr := AddressAfter(r.lastAddr, r.inc, n)))
    ensures Alike(s.(lastAddr := Bump(s)), r.(lastAddr := AddressAfter(r.lastAddr, r.inc, n + 1)))
  {}

  /** What the stream still holds once `n` words have been read. */
  function Remaining(lead: seq<Word>, vals: seq<Word32>, post: seq<Word>, n: nat): seq<Word>
    requires n <= |vals|
  {
    (if n == 0 then lead else []) + DataWords(vals[n..]) + post
  }

  lemma RemainingNext(lead: seq<Word>, vals: seq<Word32>, post: seq<Word>, n: nat)
    requires n < |vals|
    ensures Remaining(lead, vals, post, n)
         == (if n == 0 then lead else []) + ([Word(DATA, vals[n])] + Remaining(lead, vals, post, n + 1))
  {
    var more := Remaining(lead, vals, post, n + 1);
    assert more == DataWords(vals[n + 1..]) + post;
    assert DataWords(vals[n..]) == [Word(DATA, vals[n])] + DataWords(vals[n + 1..]);
  }

  /** After `n` words `r` is the last read, its cached address is past them, and the stream is ready for the next. */
  ghost predicate Reached(start: Registers, r: Read, n: nat, items: seq<Item>, left: seq<Word>) {
    && r.Got? && Sees(r.h, r.rest, items) && Flows(items, 3) && BusWords(items) == left
    && Alike(r.h.regs, start.(lastAddr := AddressAfter(start.lastAddr, start.inc, n)))
  }

  lemma LeadStill(start: Registers, r: Registers, lead: seq<Word>, n: nat)
    requires NoNews(start, lead) && Alike(r, start.(lastAddr := AddressAfter(start.lastAddr, start.inc, n)))
    ensures NoNews(r, if n == 0 then lead else [])
  {
    if n == 0 {
      NoNewsStill(start, r, lead);
    }
  }

  lemma ReachesNext(start: Registers, r: Read, lead: seq<Word>, vals: seq<Word32>, post: seq<Word>, n: nat, items: seq<Item>)
    returns (rest: seq<Item>)
    requires n < |vals| && NoNews(start, lead) && Reached(start, r, n, items, Remaining(lead, vals, post, n))
    ensures var next := ReadWord(r.h, 0, 3, r.rest);
            next.Got? && next.value == vals[n] && Reached(start, next, n + 1, rest, Remaining(lead, vals, post, n + 1))
  {
    var lead' := if n == 0 then lead else [];
    RemainingNext(lead, vals, post, n);
    LeadStill(start, r.h.regs, lead, n);
    rest := ReadsDataWord(r.h, r.rest, items, lead', vals[n], Remaining(lead, vals, post, n + 1));
    AddressStep(start, r.h.regs, n);
  }

  ghost predicate HasRead(h: Host, text: seq<Byte7>, lead: seq<Word>, vals: seq<Word32>, post: seq<Word>, n: nat, rest: seq<Item>)
    requires n <= |vals|
  {
    var (buf, r) := ReadWords(h, n, text);
    buf == vals[..n] && Reached(h.regs, r, n, rest, Remaining(lead, vals, post, n))
  }

  lemma RemainingAll(lead: seq<Word>, vals: seq<Word32>, post: seq<Word>)
    ensures Remaining(lead, vals, post, 0) == lead + DataWords(vals) + post
  {
    assert vals[0..] == vals;
  }

  lemma ReachedNone(h: Host, text: seq<Byte7>, items: seq<Item>)
    requires Sees(h, text, items) && Flows(items, 3)
    ensures Reached(h.regs, Got(0, h, text), 0, items, BusWords(items))
  {
    hide HostLink.Sees, Flows, BusWords;
    assert h.regs.(lastAddr := AddressAfter(h.regs.lastAddr, h.regs.inc, 0)) == h.regs;
  }

  lemma ReadsNone(h: Host, text: seq<Byte7>, items: seq<Item>, lead: seq<Word>, vals: seq<Word32>, post: seq<Word>)
    requires Sees(h, text, items) && Flows(items, 3) && BusWords(items) == lead + DataWords(vals) + post
    ensures HasRead(h, text, lead, vals, post, 0, items)
  {
    hide HostLink.Sees, Flows, BusWords, Reached, Remaining;
    RemainingAll(lead, vals, post);
    ReachedNone(h, text, items);
    assert ReadWords(h, 0, text) == ([], Got(0, h, text));
  }

  lemma ReadWordsNext(h: Host, n: nat, m: nat, text: seq<Byte7>)
    requires m == n + 1 && ReadWords(h, n, text).1.Got?
    ensures var (buf, r) := ReadWords(h, n, text);
            var next := ReadWord(r.h, 0, 3, r.rest);
            ReadWords(h, m, text) == (if next.Got? then buf + [next.value] else buf, next)
  {}

  lemma ReadsOneMore(h: Host, text: seq<Byte7>, lead: seq<Word>, vals: seq<Word32>, post: seq<Word>, n: nat, items: seq<Item>, m: nat)
    returns (rest: seq<Item>)
    requires n < |vals| && NoNews(h.regs, lead) && HasRead(h, text, lead, vals, post, n, items) && m == n + 1
    ensures HasRead(h, text, lead, vals, post, m, rest)
  {
    hide HostLink.Sees, Flows, Alike, HostLink.ReadWord, NoNews;
    rest := ReachesNext(h.regs, ReadWords(h, n, text).1, lead, vals, post, n, items);
    ReadWordsNext(h, n, m, text);
    assert vals[..n] + [vals[n]] == vals[..n + 1];
  }

  /** `n` calls of readword return the next `n` data words and advance the cached address past them. */
  lemma {:induction false} ReadsAll(h: Host, text: seq<Byte7>, items: seq<Item>, lead: seq<Word>,
                                    vals: seq<Word32>, post: seq<Word>, n: nat)
    returns (rest: seq<Item>)
    requires n <= |vals| && NoNews(h.regs, lead) && HasRead(h, text, lead, vals, post, 0, items)
    ensures HasRead(h, text, lead, vals, post, n, rest)
    decreases n
  {
    hide *;
    rest := items;
    if n > 0 {
      var before := ReadsAll(h, text, items, lead, vals, post, n - 1);
      rest := ReadsOneMore(h, text, lead, vals, post, n - 1, before, n);
    }
  }

  // The host against the bus machine and a memory.

  /** The host's cached address register, if it has one, is the device's. */
  predicate CacheAgrees(c: Cache, m: Machine) { c == Unknown || c == Known(4 * m.addr, m.inc) }

  function WordAt(a: Word30, inc: bool, i: nat): Word30 { if inc then (a + i) % 0x4000_0000 else a }

  function Contents(mem: Word30 -> Word32, a: Word30, inc: bool, n: nat): (s: seq<Word32>)
    ensures |s| == n && forall i :: 0 <= i < n ==> s[i] == mem(WordAt(a, inc, i))
  {
    if n == 0 then [] else Contents(mem, a, inc, n - 1) + [mem(WordAt(a, inc, n - 1))]
  }

  lemma MachineReadsOne(m: Machine, mem: Word30 -> Word32)
    ensures var m' := Exec(m, Word(DATA, 0), MemoryDevice(mem));
            && m'.rsps == m.rsps + [Word(DATA, Memory(mem, m.txns)(m.addr))]
            && m'.addr == WordAt(m.addr, m.inc, 1) && m'.inc == m.inc
            && Memory(mem, m'.txns) == Memory(mem, m.txns)
  {
    var txns := m.txns + [Request(m.addr, Word(DATA, 0))];
    assert txns[..|txns| - 1] == m.txns;
  }

  lemma DataWordsSnoc(vals: seq<Word32>, v: Word32)
    ensures DataWords(vals + [v]) == DataWords(vals) + [Word(DATA, v)]
  {}

  lemma WordAtNext(a: Word30, inc: bool, i: nat)
    ensures WordAt(WordAt(a, inc, i), inc, 1) == WordAt(a, inc, i + 1)
    ensures WordAt(a, inc, 0) == a
  {}

  /** What `n` reads have done to the machine. */
  ghost predicate MachineHasRead(m: Machine, mem: Word30 -> Word32, n: nat, m': Machine) {
    && m'.rsps == m.rsps + DataWords(Contents(Memory(mem, m.txns), m.addr, m.inc, n))
    && m'.addr == WordAt(m.addr, m.inc, n) && m'.inc == m.inc
    && Memory(mem, m'.txns) == Memory(mem, m.txns)
  }

  lemma MachineReadsNext(m: Machine, mem: Word30 -> Word32, n: nat, m1: Machine)
    requires MachineHasRead(m, mem, n, m1)
    ensures MachineHasRead(m, mem, n + 1, Exec(m1, Word(DATA, 0), MemoryDevice(mem)))
  {
    var memory := Memory(mem, m.txns);
    MachineReadsOne(m1, mem);
    WordAtNext(m.addr, m.inc, n);
    DataWordsSnoc(Contents(memory, m.addr, m.inc, n), memory(m1.addr));
  }

  /** `n` reads return the memory's words from the machine's address on, and change nothing in it. */
  lemma {:induction false} MachineReads(m: Machine, mem: Word30 -> Word32, n: nat)
    ensures MachineHasRead(m, mem, n, ExecAll(m, Reads(n), MemoryDevice(mem)))
  {
    if n == 0 {
      WordAtNext(m.addr, m.inc, 0);
      assert Contents(Memory(mem, m.txns), m.addr, m.inc, 0) == [];
    } else {
      MachineReads(m, mem, n - 1);
      assert Reads(n) == Reads(n - 1) + [Word(DATA, 0)];
      ExecSnoc(m, Reads(n - 1), Word(DATA, 0), MemoryDevice(mem));
      MachineReadsNext(m, mem, n - 1, ExecAll(m, Reads(n - 1), MemoryDevice(mem)));
    }
  }

  /** The machine after the address command of a read, and the echo it answers with. */
  function AddressedMachine(m: Machine, c: Cache, a: Word30, inc: bool): Machine {
    if Cached(c, Tagged(4 * a, inc)) then m else m.(addr := a, inc := inc, rsps := m.rsps + EchoFor(c, a, inc))
  }

  function EchoFor(c: Cache, a: Word30, inc: bool): seq<Word> {
    if Cached(c, Tagged(4 * a, inc)) then [] else [Echo(a, inc)]
  }

  lemma TaggedFields(a: Word30, inc: bool)
    ensures var p := Tagged(4 * a, inc);
            && AddrField(p) == a && !IsDifference(p) && Increments(p) == inc
            && p - p % 4 == 4 * a && Word(ADDR, p) == Echo(a, inc)
  {}

  /**
   * An address is left out only between two advancing transfers: one that is not
   * to advance is sent again even when the device has it.
   */
  lemma SkippedOnlyWhenAdvancing(a0: Word30, inc0: bool, a: Word30, inc: bool)
    ensures AddressFor(Known(4 * a0, inc0), Tagged(4 * a, inc)) == [] <==> inc && inc0 && a == a0
  {
    TaggedFields(a, inc);
    var x := Tagged(4 * a, inc);
    assert x % 2 == 0 <==> inc;
    assert inc ==> x == 4 * a;
    assert 4 * a0 % 2 == 0;
  }

  /** The address is sent unless the device has it already, so that it has it either way. */
  lemma AddressReaches(m: Machine, c: Cache, a: Word30, inc: bool, dev: Device)
    requires CacheAgrees(c, m)
    ensures var m1 := AddressedMachine(m, c, a, inc);
            ExecAll(m, AddressFor(c, Tagged(4 * a, inc)), dev) == m1 && m1.addr == a && m1.inc == inc
  {
    TaggedFields(a, inc);
    var w := Word(ADDR, Tagged(4 * a, inc));
    ExecSnoc(m, [], w, dev);
    assert [] + [w] == [w];
  }

  /** Reads after a difference address start where it moved the address to. */
  lemma DifferenceReads(m: Machine, mem: Word30 -> Word32, d: Word30, inc: bool, n: nat)
    ensures var a := (m.addr + d) % 0x4000_0000;
            var m' := ExecAll(m, [Word(ADDR, AddrPayload(d, true, inc))] + Reads(n), MemoryDevice(mem));
            && m'.rsps == m.rsps + [Echo(a, inc)] + DataWords(Contents(Memory(mem, m.txns), a, inc, n))
            && m'.addr == WordAt(a, inc, n) && Memory(mem, m'.txns) == Memory(mem, m.txns)
  {
    var dev, c := MemoryDevice(mem), Word(ADDR, AddrPayload(d, true, inc));
    DifferenceMoves(m, d, inc, dev);
    ExecSnoc(m, [], c, dev);
    assert [] + [c] == [c];
    ExecAppend(m, [c], Reads(n), dev);
    MachineReads(Exec(m, c, dev), mem, n);
  }

  /** The device's side of a read: its answers, the address it is left with, and an unchanged memory. */
  ghost predicate Answers(m: Machine, c: Cache, mem: Word30 -> Word32, a: Word30, inc: bool, len: nat, m': Machine) {
    && m'.rsps == m.rsps + (EchoFor(c, a, inc) + DataWords(Contents(Memory(mem, m.txns), a, inc, len)))
    && m'.addr == WordAt(a, inc, len) && m'.inc == inc
    && Memory(mem, m'.txns) == Memory(mem, m.txns)
  }

  lemma DeviceAnswers(m: Machine, c: Cache, mem: Word30 -> Word32, a: Word30, inc: bool, len: nat)
    requires CacheAgrees(c, m)
    ensures Answers(m, c, mem, a, inc, len, ExecAll(m, ReadCommands(c, 4 * a, inc, len), MemoryDevice(mem)))
  {
    var dev, m1 := MemoryDevice(mem), AddressedMachine(m, c, a, inc);
    AddressReaches(m, c, a, inc, dev);
    ExecAppend(m, AddressFor(c, Tagged(4 * a, inc)), Reads(len), dev);
    MachineReads(m1, mem, len);
    AnswersFrom(m, c, mem, a, inc, len, ExecAll(m1, Reads(len), dev));
  }

  lemma AnswersFrom(m: Machine, c: Cache, mem: Word30 -> Word32, a: Word30, inc: bool, len: nat, m': Machine)
    requires CacheAgrees(c, m) && MachineHasRead(AddressedMachine(m, c, a, inc), mem, len, m')
    ensures Answers(m, c, mem, a, inc, len, m')
  {
    TaggedFields(a, inc);
    var vals := DataWords(Contents(Memory(mem, m.txns), a, inc, len));
    assert m.rsps + EchoFor(c, a, inc) + vals == m.rsps + (EchoFor(c, a, inc) + vals);
    assert m.rsps + [] == m.rsps;
  }

  /** What a device answers before anything else: nothing, or to a host without an address the word of its reset. */
  predicate IsBoot(c: Cache, boot: seq<Word>) { boot == [] || (boot == [RSP_RESET] && c == Unknown) }

  /**
   * The echo of the address just sent tells the host what it assumed already; and
   * where a reset made it forget, the echo that follows restores that.
   */
  lemma EchoIsNoNews(r: Registers, a: Word30, inc: bool, boot: seq<Word>)
    requires IsBoot(CacheOf(r), boot)
    ensures NoNews(Addressed(r, 4 * a, inc), boot + EchoFor(CacheOf(r), a, inc))
  {
    var r0, echo := Addressed(r, 4 * a, inc), EchoFor(CacheOf(r), a, inc);
    TaggedFields(a, inc);
    LegalLetters(Shown(RSP_RESET));
    LegalLetters(Shown(Echo(a, inc)));
    var all := boot + echo;
    if echo != [] {
      assert Ended(r0, Shown(Echo(a, inc))) == r0;
      assert NoteAll(r0, [Echo(a, inc)]) == NoteAll(r0, []) == r0;
    }
    if boot == [] {
      assert all == echo;
    } else {
      var r1 := Ended(r0, Shown(RSP_RESET));
      assert all == [RSP_RESET, Echo(a, inc)] && all[1..] == [Echo(a, inc)];
      assert Ended(r1, Shown(Echo(a, inc))) == r0;
      assert NoteAll(r1, [Echo(a, inc)]) == NoteAll(r0, []) == r0;
    }
  }

  lemma AddressesAgree(a: Word30, inc: bool, n: nat)
    ensures AddressAfter(4 * a, inc, n) == 4 * WordAt(a, inc, n)
  {
    if inc {
      ModByFour(a + n);
    }
  }

  lemma ModByFour(x: nat)
    ensures (4 * x) % 0x1_0000_0000 == 4 * (x % 0x4000_0000)
  {}

  /** A read that went well: every word is the memory's, the commands are sent, and the cache is right again. */
  ghost predicate ReadWell(t: Transfer, c: Cache, mem: Word30 -> Word32, a: Word30, inc: bool, len: nat) {
    && t.status == Complete && t.buf == Contents(mem, a, inc, len)
    && t.sent == PrintAll(ReadCommands(c, 4 * a, inc, len))
    && CacheOf(t.h.regs) == Known(4 * WordAt(a, inc, len), inc)
  }

  /**
   * readv against the device's answers: through line ends and interrupt and idle
   * notes, it returns the memory's words at the addresses asked for, and its
   * closing address check passes.
   */
  lemma ReadVReadsMemory(h: Host, text: seq<Byte7>, items: seq<Item>, boot: seq<Word>, mem: Word30 -> Word32,
                         a: Word30, inc: bool, len: nat, post: seq<Word>)
    returns (rest: seq<Item>)
    requires Sees(h, text, items) && Flows(items, 3) && 0 < len && IsBoot(CacheOf(h.regs), boot)
    requires BusWords(items) == boot + EchoFor(CacheOf(h.regs), a, inc) + DataWords(Contents(mem, a, inc, len)) + post
    ensures var t := ReadV(h, 4 * a, inc, len, text);
            ReadWell(t, CacheOf(h.regs), mem, a, inc, len) && Sees(t.h, t.rest, rest)
    ensures Flows(rest, 3) && BusWords(rest) == post
  {
    var vals, lead := Contents(mem, a, inc, len), boot + EchoFor(CacheOf(h.regs), a, inc);
    var h0 := h.(regs := Addressed(h.regs, 4 * a, inc));
    EchoIsNoNews(h.regs, a, inc, boot);
    ReadsNone(h0, text, items, lead, vals, post);
    rest := ReadsAll(h0, text, items, lead, vals, post, len);
    AddressesAgree(a, inc, len);
    assert vals[..len] == vals && Remaining(lead, vals, post, len) == post;
  }

  // Any sequence of reads.

  datatype ReadRequest = ReadRequest(a: Word30, inc: bool, len: nat)

  /** Reads of at least one word; others return at once. */
  type ReadCall = q: ReadRequest | 0 < q.len witness ReadRequest(0, false, 1)

  function Session(h: Host, reqs: seq<ReadCall>, text: seq<Byte7>): seq<Transfer>
    decreases |reqs|
  {
    if reqs == [] then []
    else
      var t := ReadV(h, 4 * reqs[0].a, reqs[0].inc, reqs[0].len, text);
      [t] + Session(t.h, reqs[1..], t.rest)
  }

  /** The cache after a read. */
  function CacheAfter(q: ReadCall): Cache { Known(4 * WordAt(q.a, q.inc, q.len), q.inc) }

  function CallCommands(c: Cache, q: ReadCall): seq<Command> { ReadCommands(c, 4 * q.a, q.inc, q.len) }

  /** The commands of all reads: the address only where the cache does not have it. */
  function SessionCommands(c: Cache, reqs: seq<ReadCall>): seq<Command>
    decreases |reqs|
  {
    if reqs == [] then []
    else CallCommands(c, reqs[0]) + SessionCommands(CacheAfter(reqs[0]), reqs[1..])
  }

  /** What a device with the memory `mem` answers to one of them. */
  function CallAnswer(c: Cache, mem: Word30 -> Word32, q: ReadCall): seq<Word> {
    EchoFor(c, q.a, q.inc) + DataWords(Contents(mem, q.a, q.inc, q.len))
  }

  function SessionAnswers(c: Cache, mem: Word30 -> Word32, reqs: seq<ReadCall>): seq<Word>
    decreases |reqs|
  {
    if reqs == [] then []
    else CallAnswer(c, mem, reqs[0]) + SessionAnswers(CacheAfter(reqs[0]), mem, reqs[1..])
  }

  lemma MachineAnswersCall(m: Machine, c: Cache, mem: Word30 -> Word32, q: ReadCall)
    requires CacheAgrees(c, m)
    ensures var m' := ExecAll(m, CallCommands(c, q), MemoryDevice(mem));
            && m'.rsps == m.rsps + CallAnswer(c, Memory(mem, m.txns), q)
            && CacheAgrees(CacheAfter(q), m') && Memory(mem, m'.txns) == Memory(mem, m.txns)
  {
    DeviceAnswers(m, c, mem, q.a, q.inc, q.len);
  }

  /** The bus machine gives those answers, from any state the cache agrees with. */
  lemma {:induction false} MachineAnswers(m: Machine, c: Cache, mem: Word30 -> Word32, reqs: seq<ReadCall>)
    requires CacheAgrees(c, m)
    ensures ExecAll(m, SessionCommands(c, reqs), MemoryDevice(mem)).rsps
         == m.rsps + SessionAnswers(c, Memory(mem, m.txns), reqs)
    decreases |reqs|
  {
    if reqs == [] {
      assert m.rsps + [] == m.rsps;
    } else {
      var q, dev, mem' := reqs[0], MemoryDevice(mem), Memory(mem, m.txns);
      var m' := ExecAll(m, CallCommands(c, q), dev);
      MachineAnswersCall(m, c, mem, q);
      ExecAppend(m, CallCommands(c, q), SessionCommands(CacheAfter(q), reqs[1..]), dev);
      MachineAnswers(m', CacheAfter(q), mem, reqs[1..]);
      Associate(m.rsps, CallAnswer(c, mem', q), SessionAnswers(CacheAfter(q), mem', reqs[1..]));
    }
  }

  function SentBy(t: Transfer): seq<Byte7> { t.sent }

  /** Every read of a session went well. */
  ghost predicate AllWell(ts: seq<Transfer>, mem: Word30 -> Word32, reqs: seq<ReadCall>) {
    |ts| == |reqs| && forall i :: 0 <= i < |ts| ==>
      ts[i].status == Complete && ts[i].buf == Contents(mem, reqs[i].a, reqs[i].inc, reqs[i].len)
  }

  /** One read of a session, and what is left for the others. */
  lemma SessionReadsCall(h: Host, text: seq<Byte7>, items: seq<Item>, boot: seq<Word>, mem: Word30 -> Word32,
                         q: ReadCall, more: seq<Word>)
    returns (rest: seq<Item>)
    requires Sees(h, text, items) && Flows(items, 3) && IsBoot(CacheOf(h.regs), boot)
    requires BusWords(items) == boot + (CallAnswer(CacheOf(h.regs), mem, q) + more)
    ensures var t := ReadV(h, 4 * q.a, q.inc, q.len, text);
            && t.status == Complete && t.buf == Contents(mem, q.a, q.inc, q.len)
            && t.sent == PrintAll(CallCommands(CacheOf(h.regs), q))
            && CacheOf(t.h.regs) == CacheAfter(q) && Sees(t.h, t.rest, rest)
    ensures Flows(rest, 3) && BusWords(rest) == more
  {
    var echo, data := EchoFor(CacheOf(h.regs), q.a, q.inc), DataWords(Contents(mem, q.a, q.inc, q.len));
    RegroupAnswer(boot, echo, data, more);
    rest := ReadVReadsMemory(h, text, items, boot, mem, q.a, q.inc, q.len, more);
  }

  lemma RegroupAnswer(boot: seq<Word>, echo: seq<Word>, data: seq<Word>, more: seq<Word>)
    ensures boot + ((echo + data) + more) == boot + echo + data + more
  {}

  lemma {:induction false} SessionReads(h: Host, text: seq<Byte7>, items: seq<Item>, boot: seq<Word>, mem: Word30 -> Word32,
                                        reqs: seq<ReadCall>, post: seq<Word>)
    requires Sees(h, text, items) && Flows(items, 3) && IsBoot(CacheOf(h.regs), boot)
    requires BusWords(items) == boot + (SessionAnswers(CacheOf(h.regs), mem, reqs) + post)
    ensures AllWell(Session(h, reqs, text), mem, reqs)
    ensures Flatten(SentBy, Session(h, reqs, text)) == PrintAll(SessionCommands(CacheOf(h.regs), reqs))
    decreases |reqs|
  {
    if reqs != [] {
      var q, c := reqs[0], CacheOf(h.regs);
      var t := ReadV(h, 4 * q.a, q.inc, q.len, text);
      var more := SessionAnswers(CacheAfter(q), mem, reqs[1..]);
      Associate(CallAnswer(c, mem, q), more, post);
      var rest := SessionReadsCall(h, text, items, boot, mem, q, more + post);
      assert [] + (more + post) == more + post;
      SessionReads(t.h, t.rest, rest, [], mem, reqs[1..], post);
      SessionJoins(t, Session(t.h, reqs[1..], t.rest), c, mem, reqs);
    }
  }

  lemma SessionJoins(t: Transfer, ts: seq<Transfer>, c: Cache, mem: Word30 -> Word32, reqs: seq<ReadCall>)
    requires reqs != [] && AllWell(ts, mem, reqs[1..]) && t.sent == PrintAll(CallCommands(c, reqs[0]))
    requires t.status == Complete && t.buf == Contents(mem, reqs[0].a, reqs[0].inc, reqs[0].len)
    requires Flatten(SentBy, ts) == PrintAll(SessionCommands(CacheAfter(reqs[0]), reqs[1..]))
    ensures AllWell([t] + ts, mem, reqs)
    ensures Flatten(SentBy, [t] + ts) == PrintAll(SessionCommands(c, reqs))
  {
    FlattenHead(SentBy, [t] + ts);
    FlattenAppend(Print, CallCommands(c, reqs[0]), SessionCommands(CacheAfter(reqs[0]), reqs[1..]));
  }

  /**
   * End to end, over any sequence of reads: if the text that comes back shows the
   * device's answers to the commands the host prints, with line ends, interrupt
   * and idle notes between words, and before them the word of a reset if the host
   * has no address yet, then every read returns the memory's words at its
   * addresses and no address check fails, though the address is only sent when
   * the cache does not have it.
   */
  lemma SessionReadsMemory(h: Host, text: seq<Byte7>, items: seq<Item>, m: Machine, mem: Word30 -> Word32,
                           reqs: seq<ReadCall>, post: seq<Word>)
    requires Sees(h, text, items) && Flows(items, 3)
    requires CacheAgrees(CacheOf(h.regs), m) && IsBoot(CacheOf(h.regs), m.rsps)
    requires BusWords(items)
          == ExecAll(m, SessionCommands(CacheOf(h.regs), reqs), MemoryDevice(mem)).rsps + post
    ensures AllWell(Session(h, reqs, text), Memory(mem, m.txns), reqs)
    ensures Parse(Flatten(SentBy, Session(h, reqs, text)) + [NEWLINE])
         == Parser(SessionCommands(CacheOf(h.regs), reqs), [])
  {
    MachineAnswers(m, CacheOf(h.regs), mem, reqs);
    var answers := SessionAnswers(CacheOf(h.regs), Memory(mem, m.txns), reqs);
    Associate(m.rsps, answers, post);
    SessionReads(h, text, items, m.rsps, Memory(mem, m.txns), reqs, post);
    CommandRoundTrip(SessionCommands(CacheOf(h.regs), reqs));
  }
}
