/**
 * From the device's response chain to the host's buffers: what the transmitter
 * takes is a sequence of whole words and line ends, and the host reads from it
 * what the device answered.
 */
module EndToEnd {
  import opened HexWord
  import opened Sequences
  import opened BusMachine
  import opened HostLink
  import opened HexHost
  import opened CommandStream
  import ResponseChain
  import HbNewline
  import HbBus
  import HbExec

  function ItemWords(i: Item): seq<Word> { if i.Shown? then [i.word] else [] }

  function WordsOf(items: seq<Item>): seq<Word> { Flatten(ItemWords, items) }

  /** The text delivered is `items`, whole, and the beginning of one more. */
  ghost predicate Itemises(text: seq<Byte7>, words: seq<Word>, items: seq<Item>, part: seq<Byte7>) {
    && text == WireAll(items) + part && WordsOf(items) <= words
    && (part != [] ==>
          part == [CR]
          || (|WordsOf(items)| < |words| && part < Render(words[|WordsOf(items)|])))
  }

  /** `x` is the text of the first few of `words`. */
  ghost predicate Between(words: seq<Word>, x: seq<Byte7>) {
    exists j :: 0 <= j <= |words| && x == RenderAll(words[..j])
  }

  /** Every word is text and every break in the text is between words. */
  ghost predicate WellBroken(text: seq<Byte7>, words: seq<Word>) {
    && (forall w <- words :: Readable(Shown(w)))
    && Keep(IsText, text) <= RenderAll(words)
    && (forall k :: 0 <= k < |text| && !IsText(text[k]) ==> Between(words, Keep(IsText, text[..k])))
    && HbNewline.Scan(text) != HbNewline.Broken
  }

  /** The characters of a readable word are text. */
  lemma RenderIsText(w: Word)
    requires Readable(Shown(w))
    ensures Keep(IsText, Render(w)) == Render(w) && |Render(w)| > 0
  {
    RestOfWord(w);
    DigitChars(w.payload, 8);
    forall c <- Render(w) ensures IsText(c) {
      if c != Letter(w) {
        assert c in Render(w)[1..];
        assert IsDigit(c);
      }
    }
    KeepAll(IsText, Render(w));
  }

  lemma {:induction false} TextOfItems(items: seq<Item>)
    requires forall i <- items :: Readable(i)
    ensures Keep(IsText, WireAll(items)) == RenderAll(WordsOf(items))
  {
    if items != [] {
      var init, i := items[..|items| - 1], items[|items| - 1];
      assert i in items;
      TextOfItems(init);
      KeepAppend(IsText, WireAll(init), Wire(i));
      FlattenAppend(Render, WordsOf(init), ItemWords(i));
      if i.Shown? {
        RenderIsText(i.word);
        FlattenSnoc(Render, [], i.word);
        assert [] + [i.word] == [i.word];
      } else {
        KeepAppend(IsText, [CR], [LF]);
        assert [CR] + [LF] == Wire(i);
      }
    }
  }

  lemma RenderSplits(words: seq<Word>, j: nat)
    requires j <= |words|
    ensures RenderAll(words) == RenderAll(words[..j]) + RenderAll(words[j..])
    ensures j == |words| ==> RenderAll(words[j..]) == []
    ensures j < |words| ==> RenderAll(words[..j + 1]) == RenderAll(words[..j]) + Render(words[j])
    ensures j < |words| ==> RenderAll(words[j..]) == Render(words[j]) + RenderAll(words[j + 1..])
  {
    assert words == words[..j] + words[j..];
    FlattenAppend(Render, words[..j], words[j..]);
    if j < |words| {
      assert words[..j + 1] == words[..j] + [words[j]];
      FlattenSnoc(Render, words[..j], words[j]);
      FlattenHead(Render, words[j..]);
    }
  }

  lemma PrefixOfRest(a: seq<Byte7>, b: seq<Byte7>, c: seq<Byte7>)
    requires a + b <= a + c
    ensures b <= c
  {
    assert (a + b)[|a|..] == b && (a + c)[|a|..] == c;
    assert (a + c)[..|a + b|] == a + b;
    assert c[..|b|] == (a + c)[|a|..|a| + |b|];
  }

  /** The next character of the text, inside or at the beginning of word `j`. */
  lemma NextChar(words: seq<Word>, j: nat, x: seq<Byte7>, c: Byte7)
    requires j <= |words| && (j == |words| ==> x == []) && (j < |words| ==> |x| < |Render(words[j])|)
    requires RenderAll(words[..j]) + (x + [c]) <= RenderAll(words)
    ensures j < |words| && x + [c] <= Render(words[j])
  {
    RenderSplits(words, j);
    PrefixOfRest(RenderAll(words[..j]), x + [c], RenderAll(words[j..]));
    if j < |words| {
      var rest := Render(words[j]) + RenderAll(words[j + 1..]);
      assert x + [c] == rest[..|x| + 1] == Render(words[j])[..|x| + 1];
    }
  }

  /** The text inside a word is not the text of whole words. */
  lemma NotBetweenWords(words: seq<Word>, j: nat, x: seq<Byte7>)
    requires j < |words| && 0 < |x| < |Render(words[j])|
    ensures !Between(words, RenderAll(words[..j]) + x)
  {
    forall k | 0 <= k <= |words| ensures RenderAll(words[..j]) + x != RenderAll(words[..k]) {
      NotFirstWords(words, j, x, k);
    }
  }

  lemma NotFirstWords(words: seq<Word>, j: nat, x: seq<Byte7>, k: nat)
    requires j < |words| && k <= |words| && 0 < |x| < |Render(words[j])|
    ensures RenderAll(words[..j]) + x != RenderAll(words[..k])
  {
    RenderSplits(words, j);
    if k <= j {
      RenderSplits(words[..j], k);
      assert words[..j][..k] == words[..k];
    } else {
      RenderSplits(words[..k], j + 1);
      assert words[..k][..j + 1] == words[..j + 1];
    }
  }

  lemma WellBrokenInit(text: seq<Byte7>, words: seq<Word>)
    requires WellBroken(text, words) && text != []
    ensures WellBroken(text[..|text| - 1], words)
  {
    var init, c := text[..|text| - 1], text[|text| - 1];
    KeepAppend(IsText, init, [c]);
    assert init + [c] == text;
    forall k | 0 <= k < |init| && !IsText(init[k])
      ensures Between(words, Keep(IsText, init[..k]))
    {
      assert init[..k] == text[..k] && !IsText(text[k]);
    }
  }

  /** What is known of the text up to some point. */
  ghost predicate Split(text: seq<Byte7>, words: seq<Word>, items: seq<Item>, part: seq<Byte7>) {
    && Itemises(text, words, items, part) && (forall i <- items :: Readable(i))
    && (part == [CR] <==> HbNewline.Scan(text) == HbNewline.AfterCr)
  }

  lemma LineScanned(text: seq<Byte7>, c: Byte7)
    requires HbNewline.Scan(text + [c]) != HbNewline.Broken
    ensures HbNewline.Scan(text) == HbNewline.AfterCr <==> c == LF
    ensures HbNewline.Scan(text + [c]) == HbNewline.AfterCr <==> c == CR
  {
    assert (text + [c])[..|text|] == text;
  }

  lemma ItemAppended(items: seq<Item>, i: Item)
    ensures WireAll(items + [i]) == WireAll(items) + Wire(i)
    ensures WordsOf(items + [i]) == WordsOf(items) + ItemWords(i)
  {
    FlattenSnoc(Wire, items, i);
    FlattenSnoc(ItemWords, items, i);
  }

  /** A line feed ends a line; a CR begins one. */
  lemma TakesBreak(text: seq<Byte7>, words: seq<Word>, items: seq<Item>, part: seq<Byte7>, c: Byte7)
    returns (items': seq<Item>, part': seq<Byte7>)
    requires Split(text, words, items, part) && WellBroken(text + [c], words) && !IsText(c)
    ensures Split(text + [c], words, items', part')
  {
    LineScanned(text, c);
    if c == LF {
      items', part' := items + [Line], [];
      LineEnds(text, words, items);
    } else {
      items', part' := items, [CR];
      if part != [] {
        BreaksBetween(text, words, items, part, c);
      }
      assert text + [c] == WireAll(items) + [CR];
    }
  }

  lemma LineEnds(text: seq<Byte7>, words: seq<Word>, items: seq<Item>)
    requires Itemises(text, words, items, [CR])
    ensures Itemises(text + [LF], words, items + [Line], [])
  {
    ItemAppended(items, Line);
    assert text + [LF] == WireAll(items) + ([CR] + [LF]) + [];
  }

  /** A break inside a word would not be between words. */
  lemma BreaksBetween(text: seq<Byte7>, words: seq<Word>, items: seq<Item>, part: seq<Byte7>, c: Byte7)
    requires Split(text, words, items, part) && part != [] && part != [CR] && !IsText(c)
    ensures !WellBroken(text + [c], words)
  {
    if WellBroken(text + [c], words) {
      var j := |WordsOf(items)|;
      PartOfText(text, words, items, part);
      assert (text + [c])[|text|] == c && (text + [c])[..|text|] == text;
      assert Between(words, Keep(IsText, text));
      NotBetweenWords(words, j, part);
    }
  }

  /** The text so far is the text of the words in the items and of the part. */
  lemma PartOfText(text: seq<Byte7>, words: seq<Word>, items: seq<Item>, part: seq<Byte7>)
    requires Split(text, words, items, part) && part != [CR] && forall w <- words :: Readable(Shown(w))
    ensures Keep(IsText, text) == RenderAll(words[..|WordsOf(items)|]) + part
  {
    var j := |WordsOf(items)|;
    TextOfItems(items);
    KeepAppend(IsText, WireAll(items), part);
    assert words[..j] == WordsOf(items);
    if part != [] {
      assert words[j] in words;
      RenderIsText(words[j]);
      KeepPrefix(Render(words[j]), part);
    } else {
      assert Keep(IsText, part) == [];
    }
  }

  lemma KeepPrefix(s: seq<Byte7>, part: seq<Byte7>)
    requires Keep(IsText, s) == s && part <= s
    ensures Keep(IsText, part) == part
  {
    KeepWithin(IsText, s);
    forall c <- part ensures IsText(c) {
      assert c in s;
    }
    KeepAll(IsText, part);
  }

  /** A text character goes on with the word begun, or begins the next. */
  lemma TextGoesOn(text: seq<Byte7>, words: seq<Word>, items: seq<Item>, part: seq<Byte7>, c: Byte7)
    requires Split(text, words, items, part) && WellBroken(text + [c], words) && IsText(c)
    ensures var j := |WordsOf(items)|; j < |words| && part + [c] <= Render(words[j])
  {
    var j := |WordsOf(items)|;
    LineScanned(text, c);
    PartOfText(text, words, items, part);
    KeepAppend(IsText, text, [c]);
    assert Keep(IsText, text + [c]) == RenderAll(words[..j]) + (part + [c]);
    assert j < |words| ==> |Render(words[j])| > 0;
    NextChar(words, j, part, c);
  }

  lemma WordEnds(text: seq<Byte7>, words: seq<Word>, items: seq<Item>, part: seq<Byte7>, c: Byte7)
    requires Itemises(text, words, items, part)
    requires var j := |WordsOf(items)|; j < |words| && part + [c] == Render(words[j])
    ensures Itemises(text + [c], words, items + [Shown(words[|WordsOf(items)|])], [])
  {
    var j := |WordsOf(items)|;
    ItemAppended(items, Shown(words[j]));
    Associate(WireAll(items), part, [c]);
    assert words[..j + 1] == words[..j] + [words[j]];
    assert text + [c] == WireAll(items + [Shown(words[j])]) + [];
  }

  lemma TakesText(text: seq<Byte7>, words: seq<Word>, items: seq<Item>, part: seq<Byte7>, c: Byte7)
    returns (items': seq<Item>, part': seq<Byte7>)
    requires Split(text, words, items, part) && WellBroken(text + [c], words) && IsText(c)
    ensures Split(text + [c], words, items', part')
  {
    var j := |WordsOf(items)|;
    LineScanned(text, c);
    TextGoesOn(text, words, items, part, c);
    if part + [c] == Render(words[j]) {
      items', part' := items + [Shown(words[j])], [];
      WordEnds(text, words, items, part, c);
      assert words[j] in words;
    } else {
      items', part' := items, part + [c];
      Associate(WireAll(items), part, [c]);
      assert part'[|part|] == c;
    }
  }

  /** Text with its breaks between words is whole words and line ends, and the beginning of one more. */
  lemma {:induction false} Itemised(text: seq<Byte7>, words: seq<Word>) returns (items: seq<Item>, part: seq<Byte7>)
    requires WellBroken(text, words)
    ensures Split(text, words, items, part)
  {
    if text == [] {
      items, part := [], [];
    } else {
      var init, c := text[..|text| - 1], text[|text| - 1];
      assert text == init + [c];
      WellBrokenInit(text, words);
      items, part := Itemised(init, words);
      if IsText(c) {
        items, part := TakesText(init, words, items, part, c);
      } else {
        items, part := TakesBreak(init, words, items, part, c);
      }
    }
  }

  // The response chain.

  /** The words taken were offered. */
  lemma {:induction false} AcceptedWereOffered(s: ResponseChain.State, ins: seq<ResponseChain.Input>)
    requires forall i <- ins :: i.stb ==> IsBusResponse(i.word)
    ensures forall w <- ResponseChain.After(s, ins).Accepted() :: IsBusResponse(w)
  {
    if ins != [] {
      AcceptedWereOffered(s, ins[..|ins| - 1]);
    }
  }

  /** A word put on the wire is a bus response, an interrupt note or an idle note. */
  lemma WordsAreLegal(r: ResponseChain.Run)
    requires ResponseChain.StagesInv(r) && forall w <- r.Accepted() :: IsBusResponse(w)
    ensures forall w <- r.Words() :: Legal(Shown(w))
    ensures Keep(IsResponse, r.Words()) <= r.Accepted()
  {
    var kept := Keep(IsResponse, r.Words());
    ResponseChain.WordsConserved(r);
    KeepAppend(IsResponse, r.Words(), r.HeldWords());
    BusResponsesArePayload(r.Accepted());
    forall w <- r.Words() ensures Legal(Shown(w)) {
      if IsResponse(w) {
        KeepsMembers(IsResponse, r.Words(), w);
        assert w in r.Accepted();
      }
    }
  }

  lemma {:induction false} KeepsMembers<T>(p: T -> bool, s: seq<T>, x: T)
    requires x in s && p(x)
    ensures x in Keep(p, s)
  {
    if s[|s| - 1] != x {
      KeepsMembers(p, s[..|s| - 1], x);
    }
  }

  lemma RenderedAsText(words: seq<Word>)
    requires forall w <- words :: Readable(Shown(w))
    ensures Text(words) == RenderAll(words)
  {
    forall w <- words ensures Keep(IsText, Render(w)) == Render(w) {
      RenderIsText(w);
    }
    KeepFlatten(IsText, Render, words);
  }

  /** What is invariant in every run of the chain that is offered bus responses. */
  ghost predicate Sound(r: ResponseChain.Run) {
    && ResponseChain.StagesInv(r) && ResponseChain.Unbroken(r) && ResponseChain.Plain(r)
    && forall w <- r.Accepted() :: IsBusResponse(w)
  }

  lemma ChainIsSound(s: ResponseChain.State, ins: seq<ResponseChain.Input>)
    requires ResponseChain.Initial(s) && forall i <- ins :: i.stb ==> IsBusResponse(i.word)
    ensures Sound(ResponseChain.After(s, ins))
  {
    AcceptedWereOffered(s, ins);
    ResponseChain.Reachable(s, ins);
    ResponseChain.StaysPlain(s, ins);
  }

  /** What the transmitter has taken breaks only between words. */
  lemma DeliveredWellBroken(r: ResponseChain.Run)
    requires Sound(r)
    ensures WellBroken(r.Delivered(), r.Words()) && forall w <- r.Words() :: Legal(Shown(w))
    ensures Keep(IsResponse, r.Words()) <= r.Accepted()
  {
    WordsAreLegal(r);
    ResponseChain.TextConserved(r);
    BreaksAtBoundaries(r.Delivered(), r.HeldChars(), r.Words());
  }

  lemma BreaksAtBoundaries(text: seq<Byte7>, held: seq<Byte7>, words: seq<Word>)
    requires forall w <- words :: Legal(Shown(w))
    requires Keep(IsText, text + held) == Text(words) && HbNewline.Scan(text) != HbNewline.Broken
    requires forall k :: 0 <= k < |text| && !IsText(text[k]) ==> ResponseChain.AtBoundary(Keep(IsText, text[..k]), words)
    ensures WellBroken(text, words)
  {
    forall w <- words ensures Readable(Shown(w)) {
      LegalLetters(Shown(w));
    }
    RenderedAsText(words);
    KeepAppend(IsText, text, held);
    forall k | 0 <= k < |text| && !IsText(text[k]) ensures Between(words, Keep(IsText, text[..k])) {
      var j :| 0 <= j <= |words| && Keep(IsText, text[..k]) == Text(words[..j]);
      RenderedAsText(words[..j]);
    }
  }

  /** The bus words of a stream are its words less the notes. */
  lemma {:induction false} BusWordsAreKept(items: seq<Item>)
    requires forall i <- items :: Legal(i)
    ensures BusWords(items) == Keep(IsResponse, WordsOf(items))
    decreases |items|
  {
    if items != [] {
      var i := items[0];
      assert i in items;
      BusWordsAreKept(items[1..]);
      FlattenHead(ItemWords, items);
      KeepAppend(IsResponse, ItemWords(i), WordsOf(items[1..]));
      if i.Shown? {
        BusResponseOrNote(i.word);
        KeepAppend(IsResponse, [], [i.word]);
      }
    }
  }

  lemma BusResponseOrNote(w: Word)
    requires Legal(Shown(w))
    ensures IsResponse(w) == IsBusResponse(w)
  {}

  /** The text delivered is `items`, whole, and part of one more, and the bus responses in it are the first accepted. */
  ghost predicate Shows(r: ResponseChain.Run, items: seq<Item>, part: seq<Byte7>) {
    && Itemises(r.Delivered(), r.Words(), items, part) && BusWords(items) <= r.Accepted()
    && forall i <- items :: Legal(i)
  }

  lemma ItemsOf(r: ResponseChain.Run) returns (items: seq<Item>, part: seq<Byte7>)
    requires Sound(r)
    ensures Shows(r, items, part)
  {
    DeliveredWellBroken(r);
    items, part := Itemised(r.Delivered(), r.Words());
    FirstBusWords(items, r.Words());
  }

  /**
   * For every run of the response chain the text delivered is whole words and line
   * ends and the beginning of one more, and the words that are bus responses are
   * the first of those accepted.
   */
  lemma DeliveredItems(s: ResponseChain.State, ins: seq<ResponseChain.Input>)
    returns (items: seq<Item>, part: seq<Byte7>)
    requires ResponseChain.Initial(s) && forall i <- ins :: i.stb ==> IsBusResponse(i.word)
    ensures Shows(ResponseChain.After(s, ins), items, part)
  {
    ChainIsSound(s, ins);
    items, part := ItemsOf(ResponseChain.After(s, ins));
  }

  lemma FirstBusWords(items: seq<Item>, words: seq<Word>)
    requires WordsOf(items) <= words && forall w <- words :: Legal(Shown(w))
    ensures (forall i <- items :: Legal(i)) && BusWords(items) <= Keep(IsResponse, words)
  {
    ItemsAreLegal(items, words);
    BusWordsAreKept(items);
    KeepGrows(IsResponse, WordsOf(items), words);
  }

  lemma KeepGrows<T>(p: T -> bool, a: seq<T>, s: seq<T>)
    requires a <= s
    ensures Keep(p, a) <= Keep(p, s)
  {
    assert s == a + s[|a|..];
    KeepAppend(p, a, s[|a|..]);
  }

  lemma {:induction false} ItemsAreLegal(items: seq<Item>, words: seq<Word>)
    requires WordsOf(items) <= words && forall w <- words :: Legal(Shown(w))
    ensures forall i <- items :: Legal(i)
  {
    if items != [] {
      var init, i := items[..|items| - 1], items[|items| - 1];
      ItemAppended(init, i);
      assert items == init + [i];
      ItemsAreLegal(init, words);
      if i.Shown? {
        assert words[|WordsOf(init)|] == i.word;
      }
    }
  }

  // The host, from power-up.

  /** The host after the first character, which ends nothing. */
  function Woken(h: Host, c: Byte7): Host { EndWord(h, 0, c) }

  predicate Asleep(h: Host) { h.cmd == 0 }

  /** A host that has read nothing takes the first character of the stream as the beginning of an item. */
  lemma Wakes(h: Host, items: seq<Item>)
    requires Asleep(h) && items != [] && forall i <- items :: Legal(i)
    ensures var text, h' := WireAll(items), Woken(h, WireAll(items)[0]);
            && text != [] && Digit(text[0]) == [] && h'.regs == h.regs && Sees(h', text[1..], items)
  {
    assert items[0] in items;
    WireSplits(items);
    if items[0].Shown? {
      LegalLetters(items[0]);
      Letters(items[0].word);
    }
  }

  lemma {:induction false} WakesToRead(h: Host, n: nat, text: seq<Byte7>)
    requires Asleep(h) && text != [] && Digit(text[0]) == [] && 0 < n
    ensures ReadWords(h, n, text) == ReadWords(Woken(h, text[0]), n, text[1..])
    decreases n
  {
    if n == 1 {
      assert ReadWords(h, 0, text) == ([], Got(0, h, text));
    } else {
      WakesToRead(h, n - 1, text);
    }
  }

  lemma WakesToReadV(h: Host, a: Word32, inc: bool, len: nat, text: seq<Byte7>)
    requires Asleep(h) && text != [] && Digit(text[0]) == [] && 0 < len
    ensures ReadV(h, a, inc, len, text) == ReadV(Woken(h, text[0]), a, inc, len, text[1..])
  {
    var h0 := h.(regs := Addressed(h.regs, a, inc));
    WakesToRead(h0, len, text);
    assert Woken(h0, text[0]) == Woken(h, text[0]).(regs := Addressed(h.regs, a, inc));
  }

  lemma WakesToSession(h: Host, reqs: seq<ReadCall>, text: seq<Byte7>)
    requires Asleep(h) && text != [] && Digit(text[0]) == []
    ensures Session(h, reqs, text) == Session(Woken(h, text[0]), reqs, text[1..])
  {
    if reqs != [] {
      WakesToReadV(h, 4 * reqs[0].a, reqs[0].inc, reqs[0].len, text);
    }
  }

  /** All of what the chain took has been delivered, in a form the host can read through. */
  ghost predicate AllDelivered(r: ResponseChain.Run, items: seq<Item>, part: seq<Byte7>) {
    part == [] && BusWords(items) == r.Accepted() && Flows(items, 3)
  }

  /** A fresh host that makes the reads `reqs` while the device delivers `text` gets the memory's words. */
  ghost predicate HostReads(h: Host, reqs: seq<ReadCall>, text: seq<Byte7>, mem: Word30 -> Word32) {
    && AllWell(Session(h, reqs, text), mem, reqs)
    && Flatten(SentBy, Session(h, reqs, text)) == PrintAll(SessionCommands(CacheOf(h.regs), reqs))
  }

  lemma ReadsDelivered(r: ResponseChain.Run, items: seq<Item>, part: seq<Byte7>, h: Host,
                       m: Machine, mem: Word30 -> Word32, reqs: seq<ReadCall>)
    requires Shows(r, items, part) && AllDelivered(r, items, part)
    requires Asleep(h) && CacheAgrees(CacheOf(h.regs), m) && IsBoot(CacheOf(h.regs), m.rsps)
    requires r.Accepted() == ExecAll(m, SessionCommands(CacheOf(h.regs), reqs), MemoryDevice(mem)).rsps
    ensures HostReads(h, reqs, r.Delivered(), Memory(mem, m.txns))
  {
    var text, c := WireAll(items), CacheOf(h.regs);
    var answers := SessionAnswers(c, Memory(mem, m.txns), reqs);
    assert text + [] == text && answers + [] == answers;
    MachineAnswers(m, c, mem, reqs);
    Wakes(h, items);
    WakesToSession(h, reqs, text);
    SessionReads(Woken(h, text[0]), text[1..], items, m.rsps, Memory(mem, m.txns), reqs, []);
  }

  /**
   * End to end.  If the response chain took the device's answers to the commands a
   * fresh host prints for its reads, after the word its reset left, and the
   * transmitter has taken all of it, then the host's buffers hold the memory's
   * words, whatever the interrupts, the idle notes, the line ends and the stalls
   * along the way.
   */
  lemma ReadsThroughChain(s: ResponseChain.State, ins: seq<ResponseChain.Input>, h: Host,
                          m: Machine, mem: Word30 -> Word32, reqs: seq<ReadCall>)
    returns (items: seq<Item>, part: seq<Byte7>)
    requires ResponseChain.Initial(s) && forall i <- ins :: i.stb ==> IsBusResponse(i.word)
    requires Asleep(h) && CacheAgrees(CacheOf(h.regs), m) && IsBoot(CacheOf(h.regs), m.rsps)
    requires ResponseChain.After(s, ins).Accepted()
          == ExecAll(m, SessionCommands(CacheOf(h.regs), reqs), MemoryDevice(mem)).rsps
    ensures var r := ResponseChain.After(s, ins);
            && Shows(r, items, part)
            && (AllDelivered(r, items, part) ==> HostReads(h, reqs, r.Delivered(), Memory(mem, m.txns)))
  {
    var r := ResponseChain.After(s, ins);
    items, part := DeliveredItems(s, ins);
    if AllDelivered(r, items, part) {
      ReadsDelivered(r, items, part, h, m, mem, reqs);
    }
  }

  // The whole port.

  /** Everything received has been executed and answered, and the answers are in the response chain. */
  predicate Settled(r: HbBus.Run) {
    && !r.cmd.s.dh.stb && !r.cmd.s.pk.stb && r.ex.cur == []
    && !r.ex.s.rspStb && !r.ex.s.newaddr && !r.missed && !r.overrun
  }

  /** The commands of reads end with a read, which needs nothing after it to be complete. */
  lemma {:induction false} SessionEndsComplete(c: Cache, reqs: seq<ReadCall>)
    ensures var cmds := SessionCommands(c, reqs); cmds != [] ==> cmds[|cmds| - 1].kind == DATA
    decreases |reqs|
  {
    if reqs != [] {
      SessionEndsComplete(CacheAfter(reqs[0]), reqs[1..]);
      var first, others := CallCommands(c, reqs[0]), SessionCommands(CacheAfter(reqs[0]), reqs[1..]);
      assert first[|first| - 1] == Word(DATA, 0);
    }
  }

  lemma SessionParses(c: Cache, reqs: seq<ReadCall>)
    ensures Parse(PrintAll(SessionCommands(c, reqs))) == Parser(SessionCommands(c, reqs), [])
  {
    SessionEndsComplete(c, reqs);
    CommandStream.ReadCommands(SessionCommands(c, reqs));
    var p := Parse(PrintAll(SessionCommands(c, reqs)));
    assert p.open == [] && p.words + [] == p.words;
  }

  /** What a settled port has executed is what it received, and what its chain took is the machine's answers. */
  lemma SettledExecutes(r: HbBus.Run, dev: Device)
    requires HbBus.Inv(r, dev) && Settled(r)
    ensures r.ex.cmds == Parse(r.cmd.text).words
    ensures r.ch.Accepted() == ExecAll(r.ex.start, r.ex.cmds, dev).rsps
  {
    var done :| CommandStream.Follows(r.cmd, done);
    assert r.ex.cmds + [] == r.ex.cmds && r.cmd.packed + [] == r.cmd.packed;
    assert r.ex.rsps + [] + [] == r.ex.rsps;
  }

  /**
   * The whole port, from power-up or from its last reset, with any memory for a
   * slave and any stalls: if it received the text a fresh host prints for its
   * reads, has settled with no command or answer dropped, and has delivered the
   * answers, then the host got the memory's words and printed just that text.
   */
  lemma ReadsThroughPort(s: HbBus.State, ins: seq<HbBus.Input>, h: Host, mem: Word30 -> Word32, reqs: seq<ReadCall>)
    returns (items: seq<Item>, part: seq<Byte7>)
    requires HbBus.Initial(s) && HbExec.Inv(s.exec) && HbBus.LegalRun(s, ins, MemoryDevice(mem))
    requires Asleep(h) && CacheOf(h.regs) == Unknown
    requires var r := HbBus.After(s, ins);
             Settled(r) && r.cmd.text == PrintAll(SessionCommands(Unknown, reqs))
    ensures var r := HbBus.After(s, ins);
            && Shows(r.ch, items, part)
            && (AllDelivered(r.ch, items, part) ==> HostReads(h, reqs, r.ch.Delivered(), mem))
  {
    var r, dev := HbBus.After(s, ins), MemoryDevice(mem);
    HbBus.Reachable(s, ins, dev);
    items, part := ItemsOf(r.ch);
    SettledExecutes(r, dev);
    SessionParses(Unknown, reqs);
    if AllDelivered(r.ch, items, part) {
      ReadsDelivered(r.ch, items, part, h, r.ex.start, mem, reqs);
    }
  }
}
