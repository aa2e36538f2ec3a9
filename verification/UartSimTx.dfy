/**
 * UARTSIM, the software end of the serial line in simulation: the transmit half
 * of `rawtick`, set up for eight data bits, no parity and one stop bit.
 */
module UartSimTx {
  import opened SerialLine

  /** The transmit half: whether inside a frame, the bits to come and, in ones, how many of them count. */
  datatype Tx = Tx(sending: bool, baud: int, busy: nat, data: Bits)

  /** The register for a byte: a start bit, the byte, and ones. */
  function Loading(b: Byte): Bits { [false] + b + Fill(23, true) }

  /** A tick with `i` ready to be read from the connection; it is read only between frames. */
  function TxNext(c: nat, s: Tx, i: Offer): Tx {
    if !s.sending then
      match i
      case Nothing => s
      case Send(b) => Tx(true, c - 1, 1023, Loading(b))
    else if s.baud > 0 then s.(baud := s.baud - 1)
    else
      var busy := s.busy / 2;
      Tx(busy != 0, if busy == 0 then s.baud else c - 1, busy, s.data[1..] + [false])
  }

  /** The level the tick puts on the line. */
  function Drives(s: Tx, i: Offer): bool {
    if !s.sending then i == Nothing
    else if s.baud > 0 then s.data[0]
    else s.data[1]
  }

  /** `tr` holds the transmit half on every tick of a run; only its state is set at first. */
  ghost predicate TxRuns(c: nat, offers: Feed, tr: nat -> Tx) {
    && 1 <= c && !tr(0).sending
    && forall t: nat :: TxSteps(c, offers, tr, t)
  }

  predicate TxSteps(c: nat, offers: Feed, tr: nat -> Tx, t: nat) {
    tr(t + 1) == TxNext(c, tr(t), offers(t))
  }

  /** The line as the rest of the world sees it, and the bytes read, on every tick. */
  ghost predicate Shows(offers: Feed, tr: nat -> Tx, line: Line, sent: Feed) {
    && (forall x | x < 0 :: line(x) && sent(x) == Nothing)
    && (forall x: nat :: line(x) == Drives(tr(x), offers(x)))
    && (forall t: nat :: sent(t) == if tr(t).sending then Nothing else offers(t))
  }

  /** Bit `k` of the frame of `b` is on the line, with a whole bit time less one tick to go. */
  predicate Sending(c: nat, s: Tx, b: Byte, k: nat)
    requires k <= 10
  {
    s.sending && s.baud == c - 1 && s.busy == Ones(10 - k) && s.data == Loading(b)[k..] + Fill(k, false)
  }

  lemma {:induction false} CountsDown(c: nat, offers: Feed, tr: nat -> Tx, t: nat, j: nat)
    requires TxRuns(c, offers, tr) && tr(t).sending && tr(t).baud == c - 1 && j < c
    ensures tr(t + j) == tr(t).(baud := c - 1 - j)
    decreases j
  {
    if j > 0 {
      CountsDown(c, offers, tr, t, j - 1);
      assert TxSteps(c, offers, tr, t + j - 1);
    }
  }

  /** The rest of bit `k`, and the first tick of what follows it. */
  lemma BitTime(c: nat, offers: Feed, tr: nat -> Tx, line: Line, sent: Feed, t: nat, b: Byte, k: nat)
    requires TxRuns(c, offers, tr) && Shows(offers, tr, line, sent)
    requires k <= 9 && Sending(c, tr(t), b, k)
    ensures Holds(line, t, t + c - 1, Loading(b)[k]) && line(t + c - 1) == Loading(b)[k + 1]
    ensures Quiet(sent, t, t + c)
    ensures if k < 9 then Sending(c, tr(t + c), b, k + 1) else !tr(t + c).sending
  {
    forall x | t <= x < t + c
      ensures tr(x).sending && tr(x).baud == c - 1 - (x - t) && tr(x).data == tr(t).data
    {
      CountsDown(c, offers, tr, t, x - t);
    }
    CountsDown(c, offers, tr, t, c - 1);
    assert TxSteps(c, offers, tr, t + c - 1);
    assert Fill(k, false) + [false] == Fill(k + 1, false);
    assert Loading(b)[k..][1..] == Loading(b)[k + 1..];
    assert (Loading(b)[k..] + Fill(k, false))[1..] + [false] == Loading(b)[k + 1..] + Fill(k + 1, false);
    if k == 9 {
      assert Ones(1) == 1;
    } else {
      assert Ones(10 - k) == 2 * Ones(9 - k) + 1 && Ones(9 - k) > 0;
    }
  }

  lemma TenOnes()
    ensures Ones(10) == 1023
  {
    assert Ones(5) == 31;
    assert Ones(7) == 127;
  }

  lemma Begins(c: nat, offers: Feed, tr: nat -> Tx, a: nat, b: Byte)
    requires TxRuns(c, offers, tr) && !tr(a).sending && offers(a) == Send(b)
    ensures Sending(c, tr(a + 1), b, 0) && !Drives(tr(a), offers(a))
  {
    assert TxSteps(c, offers, tr, a);
    TenOnes();
    assert Loading(b)[0..] + Fill(0, false) == Loading(b);
  }

  lemma {:induction false} BitBegins(c: nat, offers: Feed, tr: nat -> Tx, line: Line, sent: Feed, a: nat, b: Byte, k: nat)
    requires TxRuns(c, offers, tr) && Shows(offers, tr, line, sent)
    requires !tr(a).sending && sent(a) == Send(b) && k <= 9
    ensures Sending(c, tr(BitAt(c, a, k) + 1), b, k)
    ensures line(BitAt(c, a, k)) == Loading(b)[k]
    ensures Quiet(sent, a + 1, BitAt(c, a, k) + 1)
    decreases k
  {
    if k == 0 {
      Begins(c, offers, tr, a, b);
      assert BitAt(c, a, 0) == a;
    } else {
      BitBegins(c, offers, tr, line, sent, a, b, k - 1);
      BitTime(c, offers, tr, line, sent, BitAt(c, a, k - 1) + 1, b, k - 1);
    }
  }

  lemma SendsBit(c: nat, offers: Feed, tr: nat -> Tx, line: Line, sent: Feed, a: nat, b: Byte, k: nat)
    requires TxRuns(c, offers, tr) && Shows(offers, tr, line, sent)
    requires !tr(a).sending && sent(a) == Send(b) && k <= 9
    ensures Holds(line, BitAt(c, a, k), BitAt(c, a, k) + c, Loading(b)[k])
    ensures k == 9 ==> Quiet(sent, a + 1, a + 10 * c + 1) && line(a + 10 * c) == Loading(b)[10]
    ensures k == 9 ==> !tr(a + 10 * c + 1).sending
  {
    BitBegins(c, offers, tr, line, sent, a, b, k);
    BitTime(c, offers, tr, line, sent, BitAt(c, a, k) + 1, b, k);
    BitAtIs(c, a, 9);
  }

  lemma LoadedLevels(b: Byte)
    ensures !Loading(b)[0] && Loading(b)[9] && Loading(b)[10]
    ensures forall k | 0 <= k < 8 :: Loading(b)[k + 1] == b[k]
  {}

  /** A byte read between frames is framed from the same tick on, and the frame ends idle with the line high. */
  lemma SendsFrame(c: nat, offers: Feed, tr: nat -> Tx, line: Line, sent: Feed, a: nat)
    requires TxRuns(c, offers, tr) && Shows(offers, tr, line, sent)
    requires !tr(a).sending && sent(a).Send?
    ensures Framed(c, line, a, sent(a).byte) && Quiet(sent, a + 1, a + 10 * c + 1)
    ensures line(a + 10 * c) && !tr(a + 10 * c + 1).sending
  {
    var b := sent(a).byte;
    LoadedLevels(b);
    SendsBit(c, offers, tr, line, sent, a, b, 0);
    assert BitAt(c, a, 0) == a;
    SendsBit(c, offers, tr, line, sent, a, b, 9);
    BitAtIs(c, a, 9);
    forall k | 0 <= k < 8 ensures Holds(line, BitAt(c, a, k + 1), BitAt(c, a, k + 1) + c, b[k]) {
      SendsBit(c, offers, tr, line, sent, a, b, k + 1);
    }
  }

  /** The last tick, up to `t`, that is idle or on which the frame under way began. */
  lemma {:induction false} LastIdle(c: nat, offers: Feed, tr: nat -> Tx, line: Line, sent: Feed, t: nat) returns (a: nat)
    requires TxRuns(c, offers, tr) && Shows(offers, tr, line, sent)
    ensures a <= t && !tr(a).sending && (a < t ==> sent(a).Send? && t <= a + 10 * c)
  {
    if t == 0 {
      a := 0;
    } else {
      a := LastIdle(c, offers, tr, line, sent, t - 1);
      if sent(a) == Nothing {
        assert TxSteps(c, offers, tr, a);
        a := t;
      } else if t == a + 10 * c + 1 {
        SendsFrame(c, offers, tr, line, sent, a);
        a := t;
      }
    }
  }

  /** The line carries exactly what is read, and is high the rest of the time. */
  lemma Transmits(c: nat, offers: Feed, tr: nat -> Tx, line: Line, sent: Feed)
    requires TxRuns(c, offers, tr) && Shows(offers, tr, line, sent)
    ensures Carries(c, 0, line, sent)
  {
    forall t: nat ensures CarriesAt(c, 0, line, sent, t) {
      var a := LastIdle(c, offers, tr, line, sent, t);
      if sent(a).Send? {
        SendsFrame(c, offers, tr, line, sent, a);
      }
    }
  }
}
