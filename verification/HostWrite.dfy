/**
 * The writing half of the host: how HEXBUS::readidle takes acknowledgements out
 * of whatever part of the response text has arrived.
 */
module HostWrite {
  import opened HexWord
  import opened Sequences
  import opened CommandStream
  import opened HostLink
  import opened HexHost

  /** What readidle leaves: the host, what it did not read, and whether it threw. */
  datatype Idle = Idle(h: Host, rest: seq<Byte7>, threw: bool)

  /** The end of a word, as readidle takes it: a reset also clears the error. */
  function NoteIdle(h: Host, value: Word32): Registers {
    if h.space then h.regs
    else
      var r := Note(h.regs, h.cmd, value);
      if h.cmd == 'T' as int then r.(busErr := false) else r
  }

  /** One character for readidle: the host, the value so far, and whether it threw. */
  function IdleChar(h: Host, value: Word32, c: Byte7): (Host, Word32, bool) {
    if Digit(c) != [] then (h, (value * 16 + Digit(c)[0]) % 0x1_0000_0000, false)
    else if h.space && IsSpace(c) then (h, value, false)
    else if !h.space && h.cmd == 'E' as int then (h.(regs := h.regs.(busErr := true)), value, true)
    else (Host(if IsSpace(c) then h.cmd else c, IsSpace(c), NoteIdle(h, value)), 0, false)
  }

  /** readidle over the characters that are available, from the value read so far. */
  function ReadIdle(h: Host, value: Word32, text: seq<Byte7>): (r: Idle)
    ensures |r.rest| <= |text| && text[|text| - |r.rest|..] == r.rest
    ensures !r.threw ==> r.rest == []
    decreases |text|
  {
    if text == [] then Idle(h, [], false)
    else
      var (h', value', threw) := IdleChar(h, value, text[0]);
      if threw then Idle(h', text[1..], true) else ReadIdle(h', value', text[1..])
  }

  /** What a throw leaves: the error's letter, still to be ended. */
  predicate Throwing(h: Host) { !h.space && h.cmd == 'E' as int }

  lemma {:induction false} LeavesThrowing(h: Host, value: Word32, text: seq<Byte7>)
    requires ReadIdle(h, value, text).threw
    ensures var r := ReadIdle(h, value, text).h; Throwing(r) && r.regs.busErr
    decreases |text|
  {
    var (h', value', threw) := IdleChar(h, value, text[0]);
    if !threw {
      LeavesThrowing(h', value', text[1..]);
    }
  }

  /** From there readidle throws again at the first character that is not a digit, and not before. */
  lemma {:induction false} ThrowsAgain(h: Host, value: Word32, text: seq<Byte7>)
    requires Throwing(h)
    ensures var r := ReadIdle(h, value, text);
            && (r.threw <==> exists c <- text :: Digit(c) == [])
            && Throwing(r.h)
    decreases |text|
  {
    if text != [] && Digit(text[0]) != [] {
      var (h', value', threw) := IdleChar(h, value, text[0]);
      ThrowsAgain(h', value', text[1..]);
      assert text == [text[0]] + text[1..];
    }
  }

  /** To readidle the end of a reset's word also clears the error, and the address is forgotten. */
  lemma IdleResets(h: Host, value: Word32, c: Byte7)
    requires !h.space && h.cmd == 'T' as int && Digit(c) == []
    ensures var (h', _, threw) := IdleChar(h, value, c); !threw && !h'.regs.busErr && CacheOf(h'.regs) == Unknown
  {}

  // readidle on whole words and line ends.

  /** What the end of an item does to the registers, as readidle takes it. */
  function EndedIdle(r: Registers, i: Item): Registers {
    if i.Shown? && Letter(i.word) == 'T' as int then Ended(r, i).(busErr := false) else Ended(r, i)
  }

  function NotedIdle(r: Registers, items: seq<Item>): Registers
    decreases |items|
  {
    if |items| <= 1 then r else NotedIdle(EndedIdle(r, items[0]), items[1..])
  }

  lemma {:induction false} IdleReadsDigits(h: Host, value: Word32, digits: seq<Byte7>, rest: seq<Byte7>)
    requires forall c <- digits :: IsDigit(c)
    ensures ReadIdle(h, value, digits + rest) == ReadIdle(h, Extend(value, digits), rest)
    decreases |digits|
  {
    if digits == [] {
      assert digits + rest == rest;
    } else {
      var c, text := digits[0], digits + rest;
      assert c in digits && text[0] == c && text[1..] == digits[1..] + rest;
      assert Digit(c) != [] by {
        assert IsDigit(c);
      }
      IdleReadsDigits(h, (value * 16 + Digit(digits[0])[0]) % 0x1_0000_0000, digits[1..], rest);
    }
  }

  lemma IdleReadsPayload(h: Host, v: Word32, rest: seq<Byte7>)
    ensures ReadIdle(h, 0, Chars(Nibbles(v, 8)) + rest) == ReadIdle(h, v, rest)
  {
    DigitChars(v, 8);
    ReadEight(Parser([], [Word(DATA, 0)]), DATA, v);
    ExtendsAsParsed(DATA, 0, Chars(Nibbles(v, 8)));
    IdleReadsDigits(h, 0, Chars(Nibbles(v, 8)), rest);
  }

  lemma IdleFinishesItem(h: Host, i: Item, rest: seq<Byte7>) returns (value: Word32)
    requires Began(h, i)
    ensures Holds(h, value, i) && (i.Line? ==> value == 0)
    ensures ReadIdle(h, 0, Wire(i)[1..] + rest) == ReadIdle(h, value, rest)
  {
    match i
    case Line =>
      value := 0;
      assert Wire(i)[1..] == [LF];
      assert ([LF] + rest)[1..] == rest;
    case Shown(w) =>
      value := Value(w);
      RestOfWord(w);
      if w.kind == SPECIAL {
        assert [] + rest == rest;
      } else {
        IdleReadsPayload(h, w.payload, rest);
      }
  }

  lemma IdleReadsNext(h: Host, value: Word32, i: Item, items: seq<Item>)
    requires Holds(h, value, i) && (i.Line? ==> value == 0) && Readable(i) && items != [] && Readable(items[0])
    requires i.Shown? ==> Letter(i.word) != 'E' as int
    ensures var h' := IdleChar(h, value, Wire(items[0])[0]).0;
            var rest := Wire(items[0])[1..] + WireAll(items[1..]);
            && Sees(h', rest, items) && h'.regs == EndedIdle(h.regs, i)
            && ReadIdle(h, value, WireAll(items)) == ReadIdle(h', 0, rest)
  {
    WireSplits(items);
    NextItemBegins(h, value, i, items[0]);
  }

  predicate IsErrorItem(i: Item) { i.Shown? && Letter(i.word) == 'E' as int }

  /**
   * readidle, on the characters of words and line ends without an error, does to
   * the registers what the end of each item calls for, once and in order.
   */
  lemma {:induction false} IdleReadsItems(h: Host, text: seq<Byte7>, items: seq<Item>)
    requires Sees(h, text, items) && forall x <- items :: Readable(x) && !IsErrorItem(x)
    ensures var r := ReadIdle(h, 0, text);
            && !r.threw && r.rest == [] && r.h.regs == NotedIdle(h.regs, items)
            && Began(r.h, items[|items| - 1])
    decreases |items|
  {
    hide Wire, IdleChar, EndedIdle, Letter, Began, Holds;
    var i, rest := items[0], items[1..];
    assert i in items;
    var value := IdleFinishesItem(h, i, WireAll(rest));
    if rest == [] {
      assert WireAll(rest) == [];
    } else {
      assert rest[0] in items;
      IdleReadsNext(h, value, i, rest);
      var h' := IdleChar(h, value, Wire(rest[0])[0]).0;
      IdleReadsItems(h', Wire(rest[0])[1..] + WireAll(rest[1..]), rest);
    }
  }

  lemma PrintsAddress(x: Word32)
    ensures PrintAll([Word(ADDR, x)]) == ['A' as int] + Chars(Nibbles(x, 8))
  {
    var w: Command := Word(ADDR, x);
    FlattenSnoc(Print, [], w);
    assert [] + [w] == [w];
  }

  /** The text of `n` read commands. */
  function Asking(n: nat): seq<Byte7> { if n == 0 then [] else Asking(n - 1) + ['R' as int, LF] }

  lemma AsksOneMore(line: seq<Byte7>, n: nat)
    ensures var before := if n == 0 then [] else line + Asking(n);
            before + ((if n == 0 then line else []) + ['R' as int, LF]) == line + Asking(n + 1)
  {
    if n == 0 {
      assert Asking(1) == [] + ['R' as int, LF];
    } else {
      assert [] + ['R' as int, LF] == ['R' as int, LF];
      assert (line + Asking(n)) + ['R' as int, LF] == line + (Asking(n) + ['R' as int, LF]);
    }
  }

  lemma {:induction false} PrintsReads(address: seq<Command>, n: nat)
    ensures PrintAll(address + Reads(n)) == PrintAll(address) + Asking(n)
  {
    if n == 0 {
      assert address + Reads(0) == address;
    } else {
      PrintsReads(address, n - 1);
      var read: Command := Word(DATA, 0);
      assert address + Reads(n) == (address + Reads(n - 1)) + [read];
      FlattenSnoc(Print, address + Reads(n - 1), read);
    }
  }

  /** What a transfer does, short of what it sends. */
  ghost predicate Performs(t: Transfer, status: Status, words: seq<Word32>, h: Host, rest: seq<Byte7>) {
    t.status == status && t.buf == words && t.h == h && t.rest == rest
  }

  lemma ReadVPerforms(h: Host, a: Word32, inc: bool, len: nat, text: seq<Byte7>)
    requires 0 < len
    ensures var (words, r) := ReadWords(h.(regs := Addressed(h.regs, a, inc)), len, text);
            var t := ReadV(h, a, inc, len, text);
            && Performs(t, ReadStatus(a, inc, len, words, r), words, r.h, r.rest)
            && t.sent == PrintAll(AddressFor(CacheOf(h.regs), Tagged(a, inc))) + Asking(if r.Got? then len else |words| + 1)
  {
    var (words, r) := ReadWords(h.(regs := Addressed(h.regs, a, inc)), len, text);
    PrintsReads(AddressFor(CacheOf(h.regs), Tagged(a, inc)), if r.Got? then len else |words| + 1);
  }

  /** `n` words have been read, leaving the host `h` and the characters `rest`. */
  ghost predicate ReadsSoFar(h0: Host, text: seq<Byte7>, n: nat, words: seq<Word32>, h: Host, rest: seq<Byte7>) {
    var (buf, r) := ReadWords(h0, n, text);
    buf == words && r.Got? && r.h == h && r.rest == rest
  }

  /** The next word decides the rest of the reads, if it is the last one or cannot be read. */
  lemma {:induction false} ReadsOneFurther(h0: Host, text: seq<Byte7>, n: nat, len: nat)
    requires n < len && ReadWords(h0, n, text).1.Got?
    ensures var (buf, r) := ReadWords(h0, n, text);
            var next := ReadWord(r.h, 0, 3, r.rest);
            if next.Got? then ReadWords(h0, n + 1, text) == (buf + [next.value], next)
            else ReadWords(h0, len, text) == (buf, next)
    decreases len
  {
    if n + 1 < len {
      ReadsOneFurther(h0, text, n, len - 1);
    }
  }

  // Acknowledgements.

  /** What decides when an acknowledgement counts, whatever the words amount to. */
  datatype Scan = Scan(cmd: Byte7, space: bool, acks: nat)

  function View(h: Host): Scan { Scan(h.cmd, h.space, h.regs.acks) }

  /** An acknowledgement has begun and will count when something follows it. */
  predicate Pending(s: Scan) { !s.space && s.cmd == 'K' as int }

  function ScanChar(s: Scan, c: Byte7): Scan {
    if Digit(c) != [] || (s.space && IsSpace(c)) then s
    else Scan(if IsSpace(c) then s.cmd else c, IsSpace(c), if Pending(s) then s.acks + 1 else s.acks)
  }

  function ScanAll(s: Scan, text: seq<Byte7>): Scan { Fold(ScanChar, s, text) }

  lemma ScanFront(s: Scan, text: seq<Byte7>)
    requires text != []
    ensures ScanAll(s, text) == ScanAll(ScanChar(s, text[0]), text[1..])
  {
    FoldAppend(ScanChar, s, [text[0]], text[1..]);
    FoldSnoc(ScanChar, s, [], text[0]);
    assert text == [text[0]] + text[1..] && [] + [text[0]] == [text[0]];
  }

  /** readidle counts the acknowledgements of what it reads, wherever in a word it is cut off. */
  lemma {:induction false} IdleScans(h: Host, value: Word32, text: seq<Byte7>)
    requires !ReadIdle(h, value, text).threw
    ensures View(ReadIdle(h, value, text).h) == ScanAll(View(h), text)
    decreases |text|
  {
    if text != [] {
      var c, rest := text[0], text[1..];
      var (h', value', _) := IdleChar(h, value, c);
      IdleScans(h', value', rest);
      IdleScansChar(h, value, c);
      ScanFront(View(h), text);
    }
  }

  lemma IdleScansChar(h: Host, value: Word32, c: Byte7)
    ensures !IdleChar(h, value, c).2 ==> View(IdleChar(h, value, c).0) == ScanChar(View(h), c)
  {}

  // Errors.

  /** The character `c` ends an error word: readidle throws on it. */
  predicate EndsError(s: Scan, c: Byte7) { Digit(c) == [] && !s.space && s.cmd == 'E' as int }

  predicate ErrorAt(s: Scan, text: seq<Byte7>, k: nat)
    requires k < |text|
  {
    EndsError(ScanAll(s, text[..k]), text[k])
  }

  /** No error word ends in `text`. */
  ghost predicate Clean(s: Scan, text: seq<Byte7>) { forall k: nat :: k < |text| ==> !ErrorAt(s, text, k) }

  /** The last character of `text`, and none before it, ends an error word. */
  ghost predicate ErrorEnds(s: Scan, text: seq<Byte7>) {
    text != [] && Clean(s, text[..|text| - 1]) && ErrorAt(s, text, |text| - 1)
  }

  lemma ErrorFront(s: Scan, text: seq<Byte7>, k: nat)
    requires k + 1 < |text|
    ensures ErrorAt(s, text, k + 1) == ErrorAt(ScanChar(s, text[0]), text[1..], k)
  {
    ScanFront(s, text[..k + 1]);
    assert text[..k + 1][1..] == text[1..][..k];
  }

  lemma CleanFront(s: Scan, text: seq<Byte7>)
    requires text != []
    ensures Clean(s, text) <==> !EndsError(s, text[0]) && Clean(ScanChar(s, text[0]), text[1..])
  {
    var s1, rest := ScanChar(s, text[0]), text[1..];
    assert text[..0] == [];
    assert ErrorAt(s, text, 0) == EndsError(s, text[0]);
    forall k: nat | k < |rest| ensures ErrorAt(s, text, k + 1) == ErrorAt(s1, rest, k) {
      ErrorFront(s, text, k);
    }
    if Clean(s, text) {
      forall k: nat | k < |rest| ensures !ErrorAt(s1, rest, k) {
        assert !ErrorAt(s, text, k + 1);
      }
    } else {
      var k: nat :| k < |text| && ErrorAt(s, text, k);
      assert k > 0 ==> ErrorAt(s1, rest, k - 1);
    }
  }

  lemma ErrorEndsFront(s: Scan, text: seq<Byte7>)
    requires |text| > 1 && !EndsError(s, text[0]) && ErrorEnds(ScanChar(s, text[0]), text[1..])
    ensures ErrorEnds(s, text)
  {
    var n := |text| - 1;
    CleanFront(s, text[..n]);
    assert text[..n][1..] == text[1..][..n - 1];
    ErrorFront(s, text, n - 1);
  }

  lemma ErrorEndsOne(s: Scan, c: Byte7)
    requires EndsError(s, c)
    ensures ErrorEnds(s, [c])
  {
    assert [c][..0] == [];
  }

  /** readidle throws exactly when what it has read ends with the first end of an error word. */
  lemma {:induction false} IdleErrors(h: Host, value: Word32, text: seq<Byte7>)
    ensures var r := ReadIdle(h, value, text);
            if r.threw then |r.rest| < |text| && ErrorEnds(View(h), text[..|text| - |r.rest|]) else Clean(View(h), text)
    decreases |text|
  {
    if text != [] {
      var c, rest := text[0], text[1..];
      var (h', value', threw) := IdleChar(h, value, c);
      assert threw == EndsError(View(h), c);
      if threw {
        ErrorEndsOne(View(h), c);
        assert text[..1] == [c];
      } else {
        IdleErrors(h', value', rest);
        IdleScansChar(h, value, c);
        IdleErrorsOn(h, value, text);
      }
    }
  }

  lemma IdleErrorsOn(h: Host, value: Word32, text: seq<Byte7>)
    requires text != [] && !EndsError(View(h), text[0])
    requires var r := ReadIdle(h, value, text);
             var s, rest := ScanChar(View(h), text[0]), text[1..];
             |r.rest| <= |rest| &&
             if r.threw then |r.rest| < |rest| && ErrorEnds(s, rest[..|rest| - |r.rest|]) else Clean(s, rest)
    ensures var r := ReadIdle(h, value, text);
            if r.threw then ErrorEnds(View(h), text[..|text| - |r.rest|]) else Clean(View(h), text)
  {
    var r := ReadIdle(h, value, text);
    if r.threw {
      var used := text[..|text| - |r.rest|];
      assert used[1..] == text[1..][..|text| - 1 - |r.rest|];
      ErrorEndsFront(View(h), used);
    } else {
      CleanFront(View(h), text);
    }
  }

  // Calls of readidle, one after another.

  /** A call that finds up to `n` characters takes `Chunk(n, text)` of them. */
  function Chunk(n: nat, text: seq<Byte7>): (k: nat)
    ensures k <= |text|
  {
    if n < |text| then n else |text|
  }

  function Used(text: seq<Byte7>, rest: seq<Byte7>): seq<Byte7>
    requires |rest| <= |text|
  {
    text[..|text| - |rest|]
  }

  predicate EndsWith(text: seq<Byte7>, rest: seq<Byte7>) { |rest| <= |text| && text[|text| - |rest|..] == rest }

  lemma EndsWithin(text: seq<Byte7>, mid: seq<Byte7>, rest: seq<Byte7>)
    requires EndsWith(text, mid) && EndsWith(mid, rest)
    ensures EndsWith(text, rest) && Used(text, rest) == Used(text, mid) + Used(mid, rest)
  {
    assert text == Used(text, mid) + mid && mid == Used(mid, rest) + rest;
  }

  /** The host after `n` calls of readidle, the first of which finds up to `polls[0]` characters, and so on. */
  function Polls(h: Host, text: seq<Byte7>, polls: seq<nat>, n: nat): (r: Idle)
    requires n <= |polls|
    ensures EndsWith(text, r.rest)
  {
    if n == 0 then Idle(h, text, false)
    else
      var r := Polls(h, text, polls, n - 1);
      if r.threw then r
      else
        var q := NextPoll(r, polls[n - 1]);
        EndsWithin(text, r.rest, q.rest);
        q
  }

  function NextPoll(r: Idle, n: nat): (q: Idle)
    ensures EndsWith(r.rest, q.rest)
  {
    var k := Chunk(n, r.rest);
    var q := ReadIdle(r.h, 0, r.rest[..k]);
    Idle(q.h, q.rest + r.rest[k..], q.threw)
  }

  /** A poll that finds up to `n` characters, when `before` of those `available` have been read. */
  function FoundMore(before: nat, n: nat, available: nat): (k: nat)
    requires before <= available
    ensures before <= k <= available
  {
    if n < available - before then before + n else available
  }

  /** The characters found by the first `n` polls, of `available` in all. */
  function Found(polls: seq<nat>, n: nat, available: nat): (k: nat)
    requires n <= |polls|
    ensures k <= available
  {
    if n == 0 then 0 else FoundMore(Found(polls, n - 1, available), polls[n - 1], available)
  }

  lemma {:induction false} FoundGrows(polls: seq<nat>, n: nat, m: nat, available: nat)
    requires n <= m <= |polls|
    ensures Found(polls, n, available) <= Found(polls, m, available)
    decreases m
  {
    if n < m {
      FoundGrows(polls, n, m - 1, available);
    }
  }

  /** What has been read, and what the host makes of it: its acknowledgements, and whether an error word ended. */
  ghost predicate Tells(s: Scan, used: seq<Byte7>, r: Idle) {
    if r.threw then ErrorEnds(s, used) else Clean(s, used) && View(r.h) == ScanAll(s, used)
  }

  lemma {:induction false} CleanAppend(s: Scan, a: seq<Byte7>, b: seq<Byte7>)
    requires Clean(s, a)
    ensures Clean(s, a + b) <==> Clean(ScanAll(s, a), b)
    ensures ErrorEnds(ScanAll(s, a), b) ==> ErrorEnds(s, a + b)
    decreases |a|
  {
    if a == [] {
      assert a + b == b && ScanAll(s, a) == s;
    } else {
      var s1, rest := ScanChar(s, a[0]), a[1..];
      CleanFront(s, a);
      ScanFront(s, a);
      CleanAppend(s1, rest, b);
      assert (a + b)[0] == a[0] && (a + b)[1..] == rest + b;
      CleanFront(s, a + b);
      if ErrorEnds(ScanAll(s, a), b) {
        ErrorEndsFront(s, a + b);
      }
    }
  }

  /** What a call has read, and what it leaves. */
  lemma PollReads(r: Idle, n: nat)
    ensures var k, q := Chunk(n, r.rest), ReadIdle(r.h, 0, r.rest[..Chunk(n, r.rest)]);
            && |q.rest| <= k && NextPoll(r, n).h == q.h && NextPoll(r, n).threw == q.threw
            && Used(r.rest, NextPoll(r, n).rest) == r.rest[..k][..k - |q.rest|]
            && (!q.threw ==> Used(r.rest, NextPoll(r, n).rest) == r.rest[..k])
  {}

  lemma PollTells(s: Scan, used: seq<Byte7>, r: Idle, n: nat)
    requires Tells(s, used, r) && !r.threw
    ensures var q := NextPoll(r, n); Tells(s, used + Used(r.rest, q.rest), q)
  {
    PollReads(r, n);
    hide NextPoll, ReadIdle, Clean, ErrorEnds, Used;
    var text := r.rest[..Chunk(n, r.rest)];
    var q, more := ReadIdle(r.h, 0, text), Used(r.rest, NextPoll(r, n).rest);
    IdleErrors(r.h, 0, text);
    CleanAppend(s, used, more);
    if !q.threw {
      IdleScans(r.h, 0, text);
      FoldAppend(ScanChar, s, used, more);
    }
  }

  /** How far the calls get: to the end of what they find, unless an error is thrown before. */
  ghost predicate Reaches(text: seq<Byte7>, polls: seq<nat>, n: nat, r: Idle)
    requires n <= |polls|
  {
    |r.rest| <= |text| &&
    if r.threw then |text| - |r.rest| <= Found(polls, n, |text|) else |text| - |r.rest| == Found(polls, n, |text|)
  }

  lemma PollReaches(text: seq<Byte7>, polls: seq<nat>, n: nat, r: Idle)
    requires n < |polls| && EndsWith(text, r.rest) && !r.threw && Reaches(text, polls, n, r)
    ensures Reaches(text, polls, n + 1, NextPoll(r, polls[n]))
  {}

  lemma ThrownReaches(text: seq<Byte7>, polls: seq<nat>, n: nat, r: Idle)
    requires n < |polls| && r.threw && Reaches(text, polls, n, r)
    ensures Reaches(text, polls, n + 1, r)
  {}

  lemma PollsNext(h: Host, text: seq<Byte7>, polls: seq<nat>, n: nat)
    requires n < |polls|
    ensures var r := Polls(h, text, polls, n);
            Polls(h, text, polls, n + 1) == if r.threw then r else NextPoll(r, polls[n])
  {}

  lemma PollsBegin(h: Host, text: seq<Byte7>, polls: seq<nat>)
    ensures Polls(h, text, polls, 0) == Idle(h, text, false)
    ensures Tells(View(h), Used(text, text), Idle(h, text, false)) && Reaches(text, polls, 0, Idle(h, text, false))
  {}

  lemma {:induction false} PollsTell(h: Host, text: seq<Byte7>, polls: seq<nat>, n: nat)
    requires n <= |polls|
    ensures var r := Polls(h, text, polls, n);
            Tells(View(h), Used(text, r.rest), r) && Reaches(text, polls, n, r)
  {
    hide Polls, NextPoll, Tells, Reaches, Used;
    if n == 0 {
      PollsBegin(h, text, polls);
    } else {
      var m := n - 1;
      var r := Polls(h, text, polls, m);
      PollsTell(h, text, polls, m);
      PollsNext(h, text, polls, m);
      if r.threw {
        ThrownReaches(text, polls, m, r);
      } else {
        PollTells(View(h), Used(text, r.rest), r, polls[m]);
        EndsWithin(text, r.rest, NextPoll(r, polls[m]).rest);
        PollReaches(text, polls, m, r);
      }
    }
  }

  /** In `text` no error word ends and at least `n` acknowledgements do. */
  ghost predicate Enough(s: Scan, text: seq<Byte7>, n: nat) { Clean(s, text) && ScanAll(s, text).acks >= n }

  lemma CleanPrefix(s: Scan, a: seq<Byte7>, text: seq<Byte7>)
    requires a <= text && Clean(s, text)
    ensures Clean(s, a) && !ErrorEnds(s, a)
  {
    forall k: nat | k < |a| ensures !ErrorAt(s, a, k) {
      assert a[..k] == text[..k];
      assert !ErrorAt(s, text, k);
    }
  }

  /** If the calls can find enough acknowledgements and no error, none throws, and all of them together find enough. */
  lemma EnoughIsFound(h: Host, text: seq<Byte7>, polls: seq<nat>, n: nat, words: nat)
    requires n <= |polls| && Enough(View(h), text[..Found(polls, |polls|, |text|)], words)
    ensures var r := Polls(h, text, polls, n);
            !r.threw && (n == |polls| ==> r.h.regs.acks >= words)
  {
    var r, reach := Polls(h, text, polls, n), text[..Found(polls, |polls|, |text|)];
    PollsTell(h, text, polls, n);
    FoundGrows(polls, n, |polls|, |text|);
    CleanPrefix(View(h), Used(text, r.rest), reach);
  }

  predicate IsAck(i: Item) { i.Shown? && i.word.kind == ACK }

  /** Acknowledgements counted, with the one begun. */
  function Seen(s: Scan): nat { s.acks + if Pending(s) then 1 else 0 }

  lemma {:induction false} ScanDigits(s: Scan, digits: seq<Byte7>)
    requires forall c <- digits :: IsDigit(c)
    ensures ScanAll(s, digits) == s
  {
    if digits != [] {
      assert IsDigit(digits[|digits| - 1]);
      ScanDigits(s, digits[..|digits| - 1]);
    }
  }

  lemma ScanLine(s: Scan)
    ensures Seen(ScanAll(s, [CR, LF])) == Seen(s)
  {
    FoldSnoc(ScanChar, s, [], CR);
    FoldSnoc(ScanChar, s, [CR], LF);
    assert [CR] + [LF] == [CR, LF];
  }

  lemma ScanWord(s: Scan, letter: Byte7, digits: seq<Byte7>)
    requires Digit(letter) == [] && !IsSpace(letter) && forall c <- digits :: IsDigit(c)
    ensures Seen(ScanAll(s, [letter] + digits)) == Seen(s) + if letter == 'K' as int then 1 else 0
  {
    FoldSnoc(ScanChar, s, [], letter);
    FoldAppend(ScanChar, s, [letter], digits);
    ScanDigits(ScanAll(s, [letter]), digits);
  }

  lemma ScanItem(s: Scan, i: Item)
    requires Readable(i)
    ensures Seen(ScanAll(s, Wire(i))) == Seen(s) + if IsAck(i) then 1 else 0
  {
    match i
    case Line => ScanLine(s);
    case Shown(w) =>
      Letters(w);
      RestOfWord(w);
      DigitChars(w.payload, 8);
      ScanWord(s, Letter(w), Render(w)[1..]);
  }

  /** Every acknowledgement shown is counted exactly once, or begun and about to be. */
  lemma {:induction false} AcksConserved(s: Scan, items: seq<Item>)
    requires forall i <- items :: Readable(i)
    ensures Seen(ScanAll(s, WireAll(items))) == Seen(s) + |Keep(IsAck, items)|
  {
    if items != [] {
      var init, i := items[..|items| - 1], items[|items| - 1];
      assert i in items;
      AcksConserved(s, init);
      FoldAppend(ScanChar, s, WireAll(init), Wire(i));
      ScanItem(ScanAll(s, WireAll(init)), i);
    }
  }

  /** Nothing that has been read so far is an error word still to be ended. */
  predicate NoError(s: Scan) { s.space || s.cmd != 'E' as int }

  lemma {:induction false} CleanDigits(s: Scan, digits: seq<Byte7>)
    requires forall c <- digits :: IsDigit(c)
    ensures Clean(s, digits)
  {
    forall k: nat | k < |digits| ensures !ErrorAt(s, digits, k) {
      assert IsDigit(digits[k]);
    }
  }

  lemma CleanWord(s: Scan, letter: Byte7, digits: seq<Byte7>)
    requires NoError(s) && Digit(letter) == [] && !IsSpace(letter) && letter != 'E' as int
    requires forall c <- digits :: IsDigit(c)
    ensures Clean(s, [letter] + digits) && NoError(ScanAll(s, [letter] + digits))
  {
    var text := [letter] + digits;
    CleanDigits(ScanChar(s, letter), digits);
    CleanFront(s, text);
    ScanFront(s, text);
    ScanDigits(ScanChar(s, letter), digits);
    assert text[1..] == digits;
  }

  lemma CleanLine(s: Scan)
    requires NoError(s)
    ensures Clean(s, [CR, LF]) && NoError(ScanAll(s, [CR, LF])) && !Pending(ScanAll(s, [CR, LF]))
  {
    CleanFront(s, [CR, LF]);
    CleanFront(ScanChar(s, CR), [LF]);
    ScanFront(s, [CR, LF]);
    ScanFront(ScanChar(s, CR), [LF]);
    assert [CR, LF][1..] == [LF] && [LF][1..] == [];
  }

  lemma CleanItem(s: Scan, i: Item)
    requires NoError(s) && Readable(i) && !IsErrorItem(i)
    ensures Clean(s, Wire(i)) && NoError(ScanAll(s, Wire(i)))
  {
    match i
    case Line => CleanLine(s);
    case Shown(w) =>
      Letters(w);
      RestOfWord(w);
      DigitChars(w.payload, 8);
      CleanWord(s, Letter(w), Render(w)[1..]);
  }

  lemma {:induction false} CleanItems(s: Scan, items: seq<Item>)
    requires NoError(s) && forall i <- items :: Readable(i) && !IsErrorItem(i)
    ensures Clean(s, WireAll(items)) && NoError(ScanAll(s, WireAll(items)))
  {
    if items != [] {
      var init, i := items[..|items| - 1], items[|items| - 1];
      assert i in items;
      CleanItems(s, init);
      CleanItem(ScanAll(s, WireAll(init)), i);
      CleanAppend(s, WireAll(init), Wire(i));
      FoldAppend(ScanChar, s, WireAll(init), Wire(i));
    }
  }

  /** Lines of answers with an acknowledgement for each word, whatever else but an error, are enough for a write. */
  lemma AnswersSuffice(s: Scan, items: seq<Item>, words: nat)
    requires NoError(s) && s.acks == 0 && !Pending(s) && |Keep(IsAck, items)| >= words
    requires forall i <- items :: Readable(i) && !IsErrorItem(i)
    ensures Enough(s, WireAll(items + [Line]), words)
  {
    var all := items + [Line];
    AcksConserved(s, items);
    CleanItems(s, all);
    FlattenSnoc(Wire, items, Line);
    FoldAppend(ScanChar, s, WireAll(items), [CR, LF]);
    CleanItems(s, items);
    CleanLine(ScanAll(s, WireAll(items)));
    ScanLine(ScanAll(s, WireAll(items)));
  }

  /** The write commands for the words of `data`. */
  function Writes(data: seq<Word32>): seq<Command> { seq(|data|, i requires 0 <= i < |data| => Word(ACK, data[i])) }

  /** The text of the first `n` of them. */
  function Writing(data: seq<Word32>, n: nat): seq<Byte7>
    requires n <= |data|
  {
    if n == 0 then [] else Writing(data, n - 1) + Print(Word(ACK, data[n - 1]))
  }

  /** The text sent with the first `n` of them; the address waits for the first. */
  function Sending(line: seq<Byte7>, data: seq<Word32>, n: nat): seq<Byte7>
    requires n <= |data|
  {
    if n == 0 then [] else line + Writing(data, n)
  }

  lemma {:induction false} PrintsWrites(address: seq<Command>, data: seq<Word32>, n: nat)
    requires n <= |data|
    ensures PrintAll(address + Writes(data[..n])) == PrintAll(address) + Writing(data, n)
  {
    if n == 0 {
      assert address + Writes(data[..0]) == address;
    } else {
      PrintsWrites(address, data, n - 1);
      PrintsLastWrite(address + Writes(data[..n - 1]), data[n - 1]);
      WritesSnoc(data, n - 1);
      Associate(address, Writes(data[..n - 1]), [Word(ACK, data[n - 1])]);
      Associate(PrintAll(address), Writing(data, n - 1), Print(Word(ACK, data[n - 1])));
    }
  }

  lemma PrintsLastWrite(cmds: seq<Command>, v: Word32)
    ensures PrintAll(cmds + [Word(ACK, v)]) == PrintAll(cmds) + Print(Word(ACK, v))
  {
    var w: Command := Word(ACK, v);
    FlattenSnoc(Print, cmds, w);
  }

  lemma WritesSnoc(data: seq<Word32>, n: nat)
    requires n < |data|
    ensures Writes(data[..n + 1]) == Writes(data[..n]) + [Word(ACK, data[n])]
  {
    assert data[..n + 1] == data[..n] + [data[n]];
  }
}
