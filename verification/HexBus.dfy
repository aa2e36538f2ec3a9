/**
 * HEXBUS: the object the host program uses, reading and writing the link.
 */
module HexBus {
  import opened HexWord
  import opened Sequences
  import opened CommandStream
  import opened HostLink
  import opened HexHost
  import opened HostWrite
  import opened LinkHistory

  datatype WordRead = Value(word: Word32) | Error(at: Word32) | NoInput

  class HexBus {
    var cmd: Byte7
    var space: bool
    var lastAddr: Word32
    var addrSet: bool
    var inc: bool
    var acks: nat
    var interrupt: bool
    var busErr: bool
    /** The characters the link will deliver, and all that has been written to it and read from it, in order. */
    var input: seq<Byte7>
    var history: seq<Event>

    /** `space`, `lastAddr` and `inc` have no initial value. */
    constructor (input: seq<Byte7>)
      ensures Self().cmd == 0 && Self().regs.acks == 0
      ensures !Self().regs.addrSet && !Self().regs.interrupt && !Self().regs.busErr
      ensures this.input == input && history == []
    {
      cmd, addrSet, acks, interrupt, busErr := 0, false, 0, false, false;
      this.input, history := input, [];
    }

    ghost function Self(): Host
      reads this
    {
      Host(cmd, space, Registers(lastAddr, addrSet, inc, acks, interrupt, busErr))
    }

    /** Since `history0`, with `input0` to come, nothing was written and `n` characters were read. */
    ghost predicate JustRead(input0: seq<Byte7>, history0: seq<Event>, n: nat)
      reads this
    {
      n <= |input0| && input == input0[n..] && history == history0 + Takes(input0[..n])
    }

    /** One character from the link. */
    method GetChar(ghost input0: seq<Byte7>, ghost history0: seq<Event>, ghost n: nat) returns (c: Byte7)
      requires input != [] && JustRead(input0, history0, n)
      modifies `input, `history
      ensures JustRead(input0, history0, n + 1) && c == old(input)[0] && input == old(input)[1..]
    {
      c := input[0];
      assert Takes(input0[..n + 1]) == Takes(input0[..n]) + [Took(c)];
      input, history := input[1..], history + [Took(c)];
    }

    /** One line to the link. */
    method Write(text: seq<Byte7>)
      modifies `history
      ensures history == old(history) + [Wrote(text)]
    {
      history := history + [Wrote(text)];
    }

    /** The word that `cmd` began is over. */
    method NoteWord(value: Word32)
      modifies `lastAddr, `addrSet, `inc, `acks, `interrupt, `busErr
      ensures Self() == old(Self()).(regs := Note(old(Self().regs), cmd, value))
    {
      if cmd == 'R' as int || cmd == 'K' as int {
        if inc {
          lastAddr := (lastAddr + 4) % 0x1_0000_0000;
        }
        if cmd == 'K' as int {
          acks := acks + 1;
        }
      } else if cmd == 'I' as int {
        interrupt := true;
      } else if cmd == 'E' as int {
        busErr := true;
      } else if cmd == 'A' as int {
        addrSet, inc, lastAddr := true, value % 2 == 0, value - value % 4;
      } else if cmd == 'T' as int {
        addrSet := false;
      }
    }

    method NextCommand(c: Byte7)
      modifies `cmd, `space
      ensures Self() == old(Self()).(cmd := if IsSpace(c) then old(cmd) else c, space := IsSpace(c))
    {
      if !IsSpace(c) {
        cmd := c;
      }
      space := IsSpace(c);
    }

    /** One character of readword, `rest` being those after it. */
    method TakeChar(c: Byte7, value: Word32, patience: nat, ghost rest: seq<Byte7>)
      returns (value': Word32, patience': nat, r: WordRead)
      requires patience > 0
      modifies `cmd, `space, `lastAddr, `addrSet, `inc, `acks, `interrupt, `busErr
      ensures var s := HostLink.ReadWord(old(Self()), value, patience, [c] + rest);
              match r
              case Value(v) => s == Got(v, Self(), rest)
              case Error(at) => s == Threw(at, Self(), rest)
              case NoInput => patience' > 0 && s == HostLink.ReadWord(Self(), value', patience', rest)
    {
      assert ([c] + rest)[1..] == rest;
      value', patience', r := 0, patience, NoInput;
      if Digit(c) != [] {
        space := false;
        var digit: int := Digit(c)[0];
        value' := (value * 16 + digit) % 0x1_0000_0000;
      } else {
        var ended, at := if space then 0 else cmd, lastAddr;
        if ended == 'Z' as int {
          patience' := patience - 1;
          if patience' == 0 {
            return value', patience', Error(0);
          }
        }
        if !space {
          NoteWord(value);
        }
        NextCommand(c);
        if ended == 'R' as int {
          r := Value(value);
        } else if ended == 'E' as int {
          r := Error(at);
        }
      }
    }

    /**
     * readword: blocks until a word, an error or three idle notes; here, or until
     * the input ends.  `n` counts the characters read.
     */
    method ReadWord() returns (r: WordRead, ghost n: nat)
      modifies this
      ensures var s := HostLink.ReadWord(old(Self()), 0, 3, old(input));
              && Self() == s.h && input == s.rest
              && r == match s case Got(v, _, _) => Value(v) case Threw(at, _, _) => Error(at) case Blocked(_, _) => NoInput
      ensures JustRead(old(input), old(history), n)
    {
      var value: Word32, patience: nat := 0, 3;
      n, r := 0, NoInput;
      while input != [] && r == NoInput
        invariant patience > 0 || r != NoInput
        invariant JustRead(old(input), old(history), n)
        invariant var s := HostLink.ReadWord(old(Self()), 0, 3, old(input));
                  match r
                  case Value(v) => s == Got(v, Self(), input)
                  case Error(at) => s == Threw(at, Self(), input)
                  case NoInput => s == HostLink.ReadWord(Self(), value, patience, input)
        decreases |input|
      {
        ghost var text := input;
        var c := GetChar(old(input), old(history), n);
        n := n + 1;
        assert text == [c] + input;
        value, patience, r := TakeChar(c, value, patience, input);
      }
    }

    /** The text of an address command, unless the device has the address already. */
    method EncodeAddress(x: Word32) returns (line: seq<Byte7>)
      ensures line == PrintAll(AddressFor(CacheOf(Self().regs), x))
    {
      line := [];
      if !(addrSet && x == lastAddr && inc == (x % 2 == 0)) {
        PrintsAddress(x);
        line := ['A' as int] + Chars(Nibbles(x, 8));
      }
    }

    /** Since `history0`, with `input0` to come, just `text` was written. */
    ghost predicate Exchanged(input0: seq<Byte7>, history0: seq<Event>, text: seq<Byte7>)
      reads this
    {
      Written(history) == Written(history0) + text && Taken(history) + input == Taken(history0) + input0
    }

    /** Asks for one word and reads it. */
    method AskWord(line: seq<Byte7>, ghost input0: seq<Byte7>, ghost history0: seq<Event>, ghost before: seq<Byte7>)
      returns (r: WordRead)
      requires Exchanged(input0, history0, before)
      modifies this
      ensures var s := HostLink.ReadWord(old(Self()), 0, 3, old(input));
              && Self() == s.h && input == s.rest
              && r == match s case Got(v, _, _) => Value(v) case Threw(at, _, _) => Error(at) case Blocked(_, _) => NoInput
      ensures Exchanged(input0, history0, before + (line + ['R' as int, LF]))
    {
      ghost var n;
      var text := line + ['R' as int, LF];
      Write(text);
      r, n := ReadWord();
      AsksAndTakes(old(history), text, old(input), n);
      Associate(Written(history0), before, text);
    }

    /** The loop of readv: asks for each word, the first time after `line`, and reads it into `buf`. */
    method Fill(len: nat, buf: array<Word32>, line: seq<Byte7>) returns (nread: nat, last: WordRead)
      requires 0 < len <= buf.Length
      modifies this, buf
      ensures var (words, r) := ReadWords(old(Self()), len, old(input));
              && nread <= len && buf[..nread] == words && Self() == r.h && input == r.rest
              && last.Value? == r.Got? && last.NoInput? == r.Blocked? && (r.Got? ==> nread == len)
      ensures Exchanged(old(input), old(history), line + Asking(if last.Value? then len else nread + 1))
      ensures forall i :: nread <= i < buf.Length ==> buf[i] == old(buf[i])
    {
      nread, last := 0, Value(0);
      while nread < len
        invariant 0 <= nread <= len && last.Value?
        invariant ReadsSoFar(old(Self()), old(input), nread, buf[..nread], Self(), input)
        invariant Exchanged(old(input), old(history), if nread == 0 then [] else line + Asking(nread))
        invariant forall i :: nread <= i < buf.Length ==> buf[i] == old(buf[i])
      {
        AsksOneMore(line, nread);
        ReadsOneFurther(old(Self()), old(input), nread, len);
        last := AskWord(if nread == 0 then line else [], old(input), old(history),
                        if nread == 0 then [] else line + Asking(nread));
        if !last.Value? {
          return;
        }
        buf[nread] := last.word;
        nread := nread + 1;
      }
    }

    /** Where readv ends up after its loop. */
    method Finish(a: Word32, inc: bool, len: nat, nread: nat, last: WordRead) returns (status: Status)
      ensures status == match last
        case Value(_) => if lastAddr == AddressAfter(a, inc, len) then Complete else AddressMismatch
        case Error(_) => BusError(AddressAfter(a, inc, nread))
        case NoInput => Starved
    {
      match last {
        case Value(_) => status := if lastAddr == AddressAfter(a, inc, len) then Complete else AddressMismatch;
        case Error(_) => status := BusError(AddressAfter(a, inc, nread));
        case NoInput => status := Starved;
      }
    }

    method SetAddress(a: Word32, inc: bool)
      modifies `lastAddr, `addrSet, `inc
      ensures Self() == old(Self()).(regs := Addressed(old(Self()).regs, a, inc))
    {
      lastAddr, addrSet, this.inc := a, true, inc;
    }

    /** The body of readv for at least one word. */
    method ReadSome(a: Word32, inc: bool, len: nat, buf: array<Word32>) returns (status: Status, nread: nat)
      requires 0 < len <= buf.Length
      modifies this, buf
      ensures var (words, r) := ReadWords(old(Self()).(regs := Addressed(old(Self()).regs, a, inc)), len, old(input));
              && nread <= len && buf[..nread] == words && Self() == r.h && input == r.rest
              && status == ReadStatus(a, inc, len, words, r)
              && Exchanged(old(input), old(history), PrintAll(AddressFor(CacheOf(old(Self()).regs), Tagged(a, inc)))
                                                     + Asking(if r.Got? then len else nread + 1))
      ensures forall i :: nread <= i < buf.Length ==> buf[i] == old(buf[i])
    {
      var line := EncodeAddress(Tagged(a, inc));
      SetAddress(a, inc);
      var last;
      nread, last := Fill(len, buf, line);
      status := Finish(a, inc, len, nread, last);
    }

    /** readv: fills `buf` from the bus, one word at a time. */
    method ReadV(a: Word32, inc: bool, len: int, buf: array<Word32>) returns (status: Status, nread: nat)
      requires len <= buf.Length
      modifies this, buf
      ensures nread <= buf.Length
      ensures Performs(HexHost.ReadV(old(Self()), a, inc, len, old(input)), status, buf[..nread], Self(), input)
      ensures Exchanged(old(input), old(history), HexHost.ReadV(old(Self()), a, inc, len, old(input)).sent)
      ensures forall i :: nread <= i < buf.Length ==> buf[i] == old(buf[i])
    {
      if len <= 0 {
        return Complete, 0;
      }
      ReadVPerforms(Self(), a, inc, len, input);
      status, nread := ReadSome(a, inc, len, buf);
    }

    /** One character of readidle. */
    method TakeIdle(c: Byte7, value: Word32) returns (value': Word32, threw: bool)
      modifies `cmd, `space, `lastAddr, `addrSet, `inc, `acks, `interrupt, `busErr
      ensures (Self(), value', threw) == IdleChar(old(Self()), value, c)
    {
      value', threw := value, false;
      if Digit(c) != [] {
        var digit: int := Digit(c)[0];
        value' := (value * 16 + digit) % 0x1_0000_0000;
      } else if !(space && IsSpace(c)) {
        if !space {
          if cmd == 'E' as int {
            busErr := true;
            return value, true;
          }
          NoteWord(value);
          if cmd == 'T' as int {
            busErr := false;
          }
        }
        NextCommand(c);
        value' := 0;
      }
    }

    /** The loop of readidle, over `k` characters that have arrived; says how many it took. */
    method TakeArrived(k: nat) returns (threw: bool, ghost taken: nat)
      requires k <= |input|
      modifies this
      ensures taken <= k && JustRead(old(input), old(history), taken)
      ensures HostWrite.ReadIdle(old(Self()), 0, old(input)[..k]) == Idle(Self(), old(input)[taken..k], threw)
    {
      hide HostWrite.ReadIdle, IdleChar;
      var value: Word32, left: nat := 0, k;
      threw, taken := false, 0;
      while left > 0
        invariant left <= k && taken == k - left && !threw && JustRead(old(input), old(history), taken)
        invariant HostWrite.ReadIdle(Self(), value, old(input)[taken..k]) == HostWrite.ReadIdle(old(Self()), 0, old(input)[..k])
      {
        IdleNext(Self(), value, old(input), taken, k);
        var c := GetChar(old(input), old(history), taken);
        left, taken := left - 1, taken + 1;
        value, threw := TakeIdle(c, value);
        if threw {
          return;
        }
      }
      IdleDone(Self(), value, old(input), k);
    }

    /** readidle: takes in what has arrived, at most `n` characters. */
    method ReadIdle(n: nat) returns (threw: bool)
      modifies this
      ensures NextPoll(Idle(old(Self()), old(input), false), n) == Idle(Self(), input, threw)
      ensures history == old(history) + Call(Used(old(input), input))
    {
      hide NextPoll, Used, HostWrite.ReadIdle;
      ghost var taken;
      history := history + [Asked];
      threw, taken := TakeArrived(Chunk(n, input));
      Stopped(old(Self()), old(input), n, taken, Self(), threw);
      ReadOn(old(history), Takes(old(input)[..taken]));
    }

    /** The text of a write command. */
    method PrintWrite(word: Word32) returns (text: seq<Byte7>)
      ensures text == Print(Word(ACK, word))
    {
      text := ['W' as int];
      if word != 0 {
        text := text + Hex(word);
      }
      text := text + [LF];
    }

    /** Since `o`, `next` polls and the events `evs`, in pace; the host is as those polls leave it. */
    ghost predicate Linked(o: Outset, next: nat, evs: seq<Event>, threw: bool)
      reads this
    {
      && next <= |o.polls| && history == o.history + evs && Taken(evs) + input == o.input
      && Polls(o.h, o.input, o.polls, next) == Idle(Self(), input, threw)
      && Paced(View(o.h), evs) && Eager(View(o.h), o.words, evs)
    }

    /** One call of readidle, while the host waits for acknowledgements. */
    method Poll(next: nat, ghost o: Outset, n: nat, ghost evs: seq<Event>) returns (threw: bool, ghost evs': seq<Event>)
      requires Linked(o, next, evs, false) && next < |o.polls| && n == o.polls[next] && Waits(View(o.h), o.words, evs)
      modifies this
      ensures Linked(o, next + 1, evs', threw) && Written(evs') == Written(evs)
    {
      ghost var input0 := input;
      threw := ReadIdle(n);
      ghost var some := Used(input0, input);
      evs' := evs + Call(some);
      PollsNext(o.h, o.input, o.polls, next);
      CallReads(View(o.h), o.words, evs, some);
      assert input0 == some + input;
      Associate(Taken(evs), some, input);
      Associate(o.history, evs, Call(some));
    }

    /**
     * Reads what arrives, one call of readidle for each poll, until `wanted`
     * acknowledgements have come in; the source polls for ever, this until the
     * polls run out.
     */
    method AwaitAcks(wanted: nat, polls: seq<nat>, first: nat, ghost o: Outset, ghost evs: seq<Event>)
      returns (next: nat, threw: bool, ghost evs': seq<Event>)
      requires Linked(o, first, evs, false) && polls == o.polls
      requires wanted + 1 == WritesOut(evs) || wanted == WritesOut(evs) == o.words
      modifies this
      ensures Linked(o, next, evs', threw) && Written(evs') == Written(evs)
      ensures !threw ==> acks >= wanted || next == |polls|
    {
      hide Polls, Paced, Eager;
      next, threw, evs' := first, false, evs;
      while acks < wanted && next < |polls| && !threw
        invariant Linked(o, next, evs', threw) && Written(evs') == Written(evs)
        decreases |polls| - next
      {
        CountsAcks(o, next, evs', input);
        threw, evs' := Poll(next, o, polls[next], evs');
        next := next + 1;
      }
    }

    /** Sends word `nw`, while at most one before it is unacknowledged. */
    method SendWord(line: seq<Byte7>, data: seq<Word32>, nw: nat, next: nat, ghost o: Outset, ghost evs: seq<Event>)
      returns (ghost evs': seq<Event>)
      requires nw < |data| && Keep(IsW, line) == [] && Linked(o, next, evs, false)
      requires WritesOut(evs) == nw <= acks + 1 && Written(evs) == Sending(line, data, nw)
      modifies `history
      ensures Linked(o, next, evs', false)
      ensures WritesOut(evs') == nw + 1 && Written(evs') == Sending(line, data, nw + 1)
    {
      hide Polls, Paced, Eager;
      CountsAcks(o, next, evs, input);
      SendsWord(View(o.h), o.words, evs, line, data, nw);
      var text := PrintWrite(data[nw]);
      text := if nw == 0 then line + text else text;
      evs' := evs + [Wrote(WriteText(line, data, nw))];
      Write(text);
    }

    /** The loop of writev, the first word going out after `line`. */
    method SendAll(line: seq<Byte7>, data: seq<Word32>, polls: seq<nat>, ghost o: Outset)
      returns (sent: nat, next: nat, threw: bool, ghost evs: seq<Event>)
      requires Keep(IsW, line) == [] && Outset(Self(), input, history, polls, |data|) == o && acks == 0
      modifies this
      ensures Linked(o, next, evs, threw) && sent <= |data|
      ensures !threw && sent < |data| ==> next == |polls| && acks < |data|
      ensures Written(evs) == Sending(line, data, sent) && WritesOut(evs) == sent
    {
      sent, next, threw, evs := 0, 0, false, [];
      hide Polls, Paced, Eager;
      while sent < |data|
        invariant sent <= |data| && sent <= acks + 1 && Linked(o, next, evs, false) && !threw
        invariant Written(evs) == Sending(line, data, sent) && WritesOut(evs) == sent
      {
        evs := SendWord(line, data, sent, next, o, evs);
        next, threw, evs := AwaitAcks(sent, polls, next, o, evs);
        sent := sent + 1;
        if threw || acks < sent - 1 {
          return;
        }
      }
    }

    /** All of writev but its address: the words, and the wait for the last acknowledgements. */
    method Deliver(line: seq<Byte7>, data: seq<Word32>, polls: seq<nat>, ghost o: Outset)
      returns (status: Status, sent: nat, made: nat, ghost evs: seq<Event>)
      requires Keep(IsW, line) == [] && Outset(Self(), input, history, polls, |data|) == o && acks == 0
      modifies this
      ensures Linked(o, made, evs, status.BusError?)
      ensures sent <= |data| && Written(evs) == Sending(line, data, sent) && WritesOut(evs) == sent
      ensures match status
              case Complete => sent == |data| && acks >= |data|
              case BusError(at) => at == lastAddr
              case Starved => acks < |data| && made == |polls|
              case AddressMismatch => false
      ensures status.BusError? <==> ErrorEnds(View(o.h), Taken(evs))
      ensures Enough(View(o.h), o.input[..Found(polls, |polls|, |o.input|)], |data|) ==> status == Complete
    {
      hide Polls, Paced, Eager, ErrorEnds, Enough, Found;
      var threw;
      sent, made, threw, evs := SendAll(line, data, polls, o);
      if !threw && sent == |data| {
        made, threw, evs := AwaitAcks(|data|, polls, made, o, evs);
      }
      ErrorsTold(o, made, evs, input);
      if Enough(View(o.h), o.input[..Found(polls, |polls|, |o.input|)], |data|) {
        EnoughIsFound(o.h, o.input, polls, made, |data|);
      }
      status := if threw then BusError(lastAddr) else if acks < |data| then Starved else Complete;
    }

    /** A write is to begin at `a`. */
    method Restart(a: Word32)
      modifies `lastAddr, `addrSet, `acks
      ensures Self() == Restarted(old(Self()), a) && acks == 0
    {
      lastAddr, addrSet, acks := a, true, 0;
    }

    /** A write of `n` bytes is done. */
    method Move(n: nat)
      modifies `lastAddr
      ensures Self() == Moved(old(Self()), n)
    {
      lastAddr := (lastAddr + n) % 0x1_0000_0000;
    }

    /**
     * writev: sends the words of `data` one at a time.  In the order in which the
     * link saw them, never more than two writes are sent and not acknowledged, and
     * the host asks for more only while two are, or all have been sent; each word
     * goes out once and in order.  The call throws exactly when an error word ends,
     * completes when all are acknowledged, and starves only when every poll has been
     * made and they are not.
     */
    method WriteV(a: Word32, p: bool, data: seq<Word32>, polls: seq<nat>)
      returns (status: Status, sent: nat, made: nat, ghost evs: seq<Event>)
      modifies this
      ensures history == old(history) + evs && Taken(evs) + input == old(input)
      ensures var start := View(Restarted(old(Self()), a)); Paced(start, evs) && Eager(start, |data|, evs)
      ensures sent <= |data| && WritesOut(evs) == sent && made <= |polls|
      ensures Written(evs) == if sent == 0 then [] else
                PrintAll(AddressFor(CacheOf(old(Self()).regs), Tagged(a, p)) + Writes(data[..sent]))
      ensures var r := Polls(Restarted(old(Self()), a), old(input), polls, made);
              && input == r.rest && status.BusError? == r.threw
              && Self() == if status == Complete && p then Moved(r.h, 4 * |data|) else r.h
      ensures match status
              case Complete => sent == |data| && acks >= |data|
              case BusError(at) => at == lastAddr
              case Starved => acks < |data| && made == |polls|
              case AddressMismatch => false
      ensures status.BusError? <==> ErrorEnds(View(Restarted(old(Self()), a)), Taken(evs))
      ensures Enough(View(Restarted(old(Self()), a)), old(input)[..Found(polls, |polls|, |old(input)|)], |data|)
              ==> status == Complete
    {
      hide Polls, Paced, Eager, ErrorEnds, Enough, Found, Restarted, Moved;
      var line := EncodeAddress(Tagged(a, p));
      NoWInAddress(CacheOf(Self().regs), Tagged(a, p));
      Restart(a);
      ghost var o := Outset(Self(), input, history, polls, |data|);
      status, sent, made, evs := Deliver(line, data, polls, o);
      PrintsWrites(AddressFor(CacheOf(old(Self()).regs), Tagged(a, p)), data, sent);
      if status == Complete && p {
        Move(4 * |data|);
      }
    }
  }

  /** A call of readidle that stops after `taken` characters. */
  lemma Stopped(h0: Host, text: seq<Byte7>, n: nat, taken: nat, h: Host, threw: bool)
    requires taken <= Chunk(n, text)
    requires HostWrite.ReadIdle(h0, 0, text[..Chunk(n, text)]) == Idle(h, text[taken..Chunk(n, text)], threw)
    ensures NextPoll(Idle(h0, text, false), n) == Idle(h, text[taken..], threw)
    ensures Used(text, text[taken..]) == text[..taken]
  {
    var k := Chunk(n, text);
    assert text[taken..k] + text[k..] == text[taken..];
  }

  lemma IdleNext(h: Host, value: Word32, text: seq<Byte7>, taken: nat, k: nat)
    requires taken < k <= |text|
    ensures var (h', value', threw) := IdleChar(h, value, text[taken]);
            HostWrite.ReadIdle(h, value, text[taken..k]) ==
            if threw then Idle(h', text[taken + 1..k], true) else HostWrite.ReadIdle(h', value', text[taken + 1..k])
  {
    assert text[taken..k][1..] == text[taken + 1..k];
  }

  lemma IdleDone(h: Host, value: Word32, text: seq<Byte7>, k: nat)
    requires k <= |text|
    ensures HostWrite.ReadIdle(h, value, text[k..k]) == Idle(h, text[k..k], false)
  {}

  lemma ReadOn(history: seq<Event>, read: seq<Event>)
    ensures history + [Asked] + read == history + ([Asked] + read)
  {}

  /** The host's count is that of the acknowledgements in what has been read. */
  lemma CountsAcks(o: Outset, next: nat, evs: seq<Event>, input: seq<Byte7>)
    requires next <= |o.polls| && Taken(evs) + input == o.input
    requires Polls(o.h, o.input, o.polls, next).rest == input && !Polls(o.h, o.input, o.polls, next).threw
    ensures Polls(o.h, o.input, o.polls, next).h.regs.acks == AcksIn(View(o.h), evs)
  {
    PollsTell(o.h, o.input, o.polls, next);
    assert Used(o.input, input) == Taken(evs);
  }

  lemma ErrorsTold(o: Outset, next: nat, evs: seq<Event>, input: seq<Byte7>)
    requires next <= |o.polls| && Taken(evs) + input == o.input && Polls(o.h, o.input, o.polls, next).rest == input
    ensures Polls(o.h, o.input, o.polls, next).threw <==> ErrorEnds(View(o.h), Taken(evs))
  {
    PollsTell(o.h, o.input, o.polls, next);
    assert Used(o.input, input) == Taken(evs);
    if !Polls(o.h, o.input, o.polls, next).threw {
      CleanPrefix(View(o.h), Taken(evs), Taken(evs));
    }
  }
}
