/**
 * The traffic between the host and the link, in the order it happens: texts
 * written, characters read, and the calls of readidle that ask what has arrived.
 */
module LinkHistory {
  import opened HexWord
  import opened Sequences
  import opened CommandStream
  import opened HostLink
  import opened HexHost
  import opened HostWrite

  datatype Event = Wrote(text: seq<Byte7>) | Took(c: Byte7) | Asked

  function Out(e: Event): seq<Byte7> { if e.Wrote? then e.text else [] }

  function In(e: Event): seq<Byte7> { if e.Took? then [e.c] else [] }

  /** All that was written, and all that was read. */
  function Written(evs: seq<Event>): seq<Byte7> { Flatten(Out, evs) }

  function Taken(evs: seq<Event>): seq<Byte7> { Flatten(In, evs) }

  /** The characters of `text` read one after another. */
  function Takes(text: seq<Byte7>): seq<Event> { seq(|text|, i requires 0 <= i < |text| => Took(text[i])) }

  lemma {:induction false} TakesAre(text: seq<Byte7>)
    ensures Taken(Takes(text)) == text && Written(Takes(text)) == []
  {
    if text != [] {
      var init, c := text[..|text| - 1], text[|text| - 1];
      TakesAre(init);
      assert Takes(text) == Takes(init) + [Took(c)];
      FlattenSnoc(In, Takes(init), Took(c));
      FlattenSnoc(Out, Takes(init), Took(c));
    }
  }

  lemma Joined(a: seq<Event>, b: seq<Event>)
    ensures Written(a + b) == Written(a) + Written(b) && Taken(a + b) == Taken(a) + Taken(b)
  {
    FlattenAppend(Out, a, b);
    FlattenAppend(In, a, b);
  }

  lemma WroteText(evs: seq<Event>, text: seq<Byte7>)
    ensures Written(evs + [Wrote(text)]) == Written(evs) + text && Taken(evs + [Wrote(text)]) == Taken(evs)
  {
    FlattenSnoc(Out, evs, Wrote(text));
    FlattenSnoc(In, evs, Wrote(text));
  }

  /** A text written and then `n` characters read. */
  lemma AsksAndTakes(evs: seq<Event>, text: seq<Byte7>, input: seq<Byte7>, n: nat)
    requires n <= |input|
    ensures var evs' := evs + [Wrote(text)] + Takes(input[..n]);
            Written(evs') == Written(evs) + text && Taken(evs') + input[n..] == Taken(evs) + input
  {
    WroteText(evs, text);
    TookText(evs + [Wrote(text)], input[..n]);
    assert input[..n] + input[n..] == input;
    Associate(Taken(evs), input[..n], input[n..]);
  }

  lemma TookText(evs: seq<Event>, text: seq<Byte7>)
    ensures Written(evs + Takes(text)) == Written(evs) && Taken(evs + Takes(text)) == Taken(evs) + text
  {
    Joined(evs, Takes(text));
    TakesAre(text);
  }

  /** What a writev starts from, and the `words` it has to write. */
  datatype Outset = Outset(h: Host, input: seq<Byte7>, history: seq<Event>, polls: seq<nat>, words: nat)

  /** The host when a write is to begin at `a`. */
  function Restarted(h: Host, a: Word32): Host { h.(regs := h.regs.(lastAddr := a, addrSet := true, acks := 0)) }

  /** The host with its copy of the address `n` further on. */
  function Moved(h: Host, n: nat): Host { h.(regs := h.regs.(lastAddr := (h.regs.lastAddr + n) % 0x1_0000_0000)) }

  // Write commands and acknowledgements.

  predicate IsW(c: Byte7) { c == 'W' as int }

  /** The write commands sent: no other text of the host has a 'W' in it. */
  function WritesOut(evs: seq<Event>): nat { |Keep(IsW, Written(evs))| }

  /** The acknowledgements read, from where `start` left off. */
  function AcksIn(start: Scan, evs: seq<Event>): nat { ScanAll(start, Taken(evs)).acks }

  /** Of the writes sent by the events `evs`, no more than two are not acknowledged by them. */
  predicate AtMostTwo(start: Scan, evs: seq<Event>) { WritesOut(evs) <= AcksIn(start, evs) + 2 }

  predicate PacedAt(start: Scan, evs: seq<Event>, k: nat)
    requires k <= |evs|
  {
    AtMostTwo(start, evs[..k])
  }

  /** At no time are more than two writes sent and not acknowledged. */
  ghost predicate Paced(start: Scan, evs: seq<Event>) {
    forall k: nat :: k <= |evs| ==> PacedAt(start, evs, k)
  }

  lemma {:induction false} AcksOnlyGrow(s: Scan, text: seq<Byte7>)
    ensures ScanAll(s, text).acks >= s.acks
  {
    if text != [] {
      AcksOnlyGrow(s, text[..|text| - 1]);
    }
  }

  /** Reading keeps the pace. */
  lemma PacedByReading(start: Scan, evs: seq<Event>, text: seq<Byte7>)
    requires Paced(start, evs)
    ensures Paced(start, evs + Takes(text))
  {
    var all := evs + Takes(text);
    forall k: nat | k <= |all| ensures PacedAt(start, all, k) {
      if k <= |evs| {
        assert all[..k] == evs[..k] && PacedAt(start, evs, k);
      } else {
        assert PacedAt(start, evs, |evs|);
        var some := text[..k - |evs|];
        assert all[..k] == evs + Takes(some) && evs[..|evs|] == evs;
        TookText(evs, some);
        FoldAppend(ScanChar, start, Taken(evs), some);
        AcksOnlyGrow(ScanAll(start, Taken(evs)), some);
      }
    }
  }

  /** So does one more write, while at most one is unacknowledged. */
  lemma PacedByWriting(start: Scan, evs: seq<Event>, text: seq<Byte7>)
    requires Paced(start, evs) && |Keep(IsW, text)| == 1 && WritesOut(evs) <= AcksIn(start, evs) + 1
    ensures Paced(start, evs + [Wrote(text)]) && WritesOut(evs + [Wrote(text)]) == WritesOut(evs) + 1
  {
    WroteText(evs, text);
    KeepAppend(IsW, Written(evs), text);
    PacedOn(start, evs, Wrote(text));
  }

  lemma PacedOn(start: Scan, evs: seq<Event>, e: Event)
    requires Paced(start, evs) && AtMostTwo(start, evs + [e])
    ensures Paced(start, evs + [e])
  {
    var all := evs + [e];
    forall k: nat | k <= |all| ensures PacedAt(start, all, k) {
      if k <= |evs| {
        assert all[..k] == evs[..k] && PacedAt(start, evs, k);
      } else {
        assert all[..k] == all;
      }
    }
  }

  /** Of `words` to be written the host waits for acknowledgements: two writes are out, or all of them. */
  predicate Waits(start: Scan, words: nat, evs: seq<Event>) {
    AcksIn(start, evs) + 1 < WritesOut(evs) || (WritesOut(evs) == words && AcksIn(start, evs) < words)
  }

  predicate EagerAt(start: Scan, words: nat, evs: seq<Event>, k: nat)
    requires k < |evs|
  {
    evs[k] == Asked ==> Waits(start, words, evs[..k])
  }

  /** The host never asks when it could write, or has all acknowledgements. */
  ghost predicate Eager(start: Scan, words: nat, evs: seq<Event>) {
    forall k: nat :: k < |evs| ==> EagerAt(start, words, evs, k)
  }

  lemma EagerOn(start: Scan, words: nat, evs: seq<Event>, more: seq<Event>)
    requires Eager(start, words, evs) && (more != [] && more[0] == Asked ==> Waits(start, words, evs))
    requires forall k :: 1 <= k < |more| ==> more[k] != Asked
    ensures Eager(start, words, evs + more)
  {
    var all := evs + more;
    forall k: nat | k < |all| ensures EagerAt(start, words, all, k) {
      if k < |evs| {
        assert all[..k] == evs[..k] && EagerAt(start, words, evs, k);
      } else if k == |evs| {
        assert all[..k] == evs;
      } else {
        assert all[k] == more[k - |evs|];
      }
    }
  }

  lemma AskedNothing(evs: seq<Event>)
    ensures Written(evs + [Asked]) == Written(evs) && Taken(evs + [Asked]) == Taken(evs)
  {
    FlattenSnoc(Out, evs, Asked);
    FlattenSnoc(In, evs, Asked);
  }

  /** One call of readidle that reads `text`. */
  function Call(text: seq<Byte7>): seq<Event> { [Asked] + Takes(text) }

  lemma CallReads(start: Scan, words: nat, evs: seq<Event>, text: seq<Byte7>)
    requires Paced(start, evs) && Eager(start, words, evs) && Waits(start, words, evs)
    ensures var evs' := evs + Call(text);
            && Taken(evs') == Taken(evs) + text && Written(evs') == Written(evs)
            && Paced(start, evs') && Eager(start, words, evs')
  {
    var asked := evs + [Asked];
    assert evs + Call(text) == asked + Takes(text);
    AskedNothing(evs);
    TookText(asked, text);
    assert PacedAt(start, evs, |evs|) && evs[..|evs|] == evs;
    PacedOn(start, evs, Asked);
    PacedByReading(start, asked, text);
    EagerOn(start, words, evs, Call(text));
  }

  /** One more text written. */
  lemma WritesOn(start: Scan, words: nat, evs: seq<Event>, text: seq<Byte7>)
    requires Paced(start, evs) && Eager(start, words, evs)
    requires |Keep(IsW, text)| == 1 && WritesOut(evs) <= AcksIn(start, evs) + 1
    ensures var evs' := evs + [Wrote(text)];
            && Taken(evs') == Taken(evs) && Written(evs') == Written(evs) + text && WritesOut(evs') == WritesOut(evs) + 1
            && Paced(start, evs') && Eager(start, words, evs')
  {
    WroteText(evs, text);
    PacedByWriting(start, evs, text);
    EagerOn(start, words, evs, [Wrote(text)]);
  }

  lemma {:induction false} NoWInDigits(digits: seq<Byte7>)
    requires forall c <- digits :: IsDigit(c)
    ensures Keep(IsW, digits) == []
  {
    if digits != [] {
      assert IsDigit(digits[|digits| - 1]);
      NoWInDigits(digits[..|digits| - 1]);
    }
  }

  lemma NoWInAddress(c: Cache, x: Word32)
    ensures Keep(IsW, PrintAll(AddressFor(c, x))) == []
  {
    if !Cached(c, x) {
      PrintsAddress(x);
      DigitChars(x, 8);
      NoWInDigits(Chars(Nibbles(x, 8)));
      var letter: Byte7 := 'A' as int;
      KeepAppend(IsW, [letter], Chars(Nibbles(x, 8)));
    }
  }

  lemma {:induction false} HexIsDigits(v: Word32)
    ensures forall c <- Hex(v) :: IsDigit(c)
  {
    if v >= 16 {
      HexIsDigits(v / 16);
    }
  }

  lemma OneWInWrite(v: Word32)
    ensures |Keep(IsW, Print(Word(ACK, v)))| == 1
  {
    var letter: Byte7 := 'W' as int;
    var hex := if v == 0 then [] else Hex(v);
    HexIsDigits(v);
    NoWInDigits(hex);
    KeepAppend(IsW, [letter], hex);
    KeepAppend(IsW, [letter] + hex, [NEWLINE]);
  }

  /** What goes out with word `n`. */
  function WriteText(line: seq<Byte7>, data: seq<Word32>, n: nat): seq<Byte7>
    requires n < |data|
  {
    if n == 0 then line + Print(Word(ACK, data[n])) else Print(Word(ACK, data[n]))
  }

  lemma OneWInWriteText(line: seq<Byte7>, data: seq<Word32>, n: nat)
    requires n < |data| && Keep(IsW, line) == []
    ensures |Keep(IsW, WriteText(line, data, n))| == 1
  {
    OneWInWrite(data[n]);
    KeepAppend(IsW, line, Print(Word(ACK, data[n])));
  }

  /** One more word sent: what has gone out, and with which commands. */
  lemma SendsOne(line: seq<Byte7>, data: seq<Word32>, n: nat)
    requires n < |data|
    ensures Sending(line, data, n) + WriteText(line, data, n) == Sending(line, data, n + 1)
  {
    var text := Print(Word(ACK, data[n]));
    if n == 0 {
      assert Writing(data, 1) == [] + text == text;
    } else {
      Associate(line, Writing(data, n), text);
    }
  }

  /** Sending word `n` keeps the pace while at most one before it is unacknowledged. */
  lemma SendsWord(start: Scan, words: nat, evs: seq<Event>, line: seq<Byte7>, data: seq<Word32>, n: nat)
    requires Paced(start, evs) && Eager(start, words, evs) && n < |data| && Keep(IsW, line) == []
    requires WritesOut(evs) == n <= AcksIn(start, evs) + 1 && Written(evs) == Sending(line, data, n)
    ensures var evs' := evs + [Wrote(WriteText(line, data, n))];
            && Taken(evs') == Taken(evs) && Paced(start, evs') && Eager(start, words, evs')
            && Written(evs') == Sending(line, data, n + 1) && WritesOut(evs') == n + 1
  {
    OneWInWriteText(line, data, n);
    SendsOne(line, data, n);
    WritesOn(start, words, evs, WriteText(line, data, n));
  }
}
