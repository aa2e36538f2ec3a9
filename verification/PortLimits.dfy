/**
 * When hbbus drops a response: how much it can hold, a run that overruns it, and
 * a pace of the sender that never does.
 */
module PortLimits {
  import opened HexWord
  import opened Sequences
  import opened BusMachine
  import CommandStream
  import HbBus
  import HbDechex
  import HbDeword
  import HbExec
  import HbGenhex
  import HbIdle
  import HbInts
  import HbNewline
  import HbPack
  import ResponseChain

  // Capacity.

  lemma {:induction false} KeepIsShorter<T>(p: T -> bool, s: seq<T>)
    ensures |Keep(p, s)| <= |s|
  {
    if s != [] {
      KeepIsShorter(p, s[..|s| - 1]);
    }
  }

  lemma {:induction false} RenderedLength(ws: seq<Word>)
    ensures |ws| <= |RenderAll(ws)| <= 9 * |ws|
  {
    if ws != [] {
      RenderedLength(ws[..|ws| - 1]);
    }
  }

  lemma FewChars(ch: ResponseChain.Run)
    requires HbDeword.Inv(ch.dw.s)
    ensures |ch.HeldChars()| <= 11
  {
    assert |HbNewline.Held(ch.nl.s)| <= 1 && |HbGenhex.Held(ch.gx.s)| <= 1;
    assert |HbDeword.Held(ch.dw.s)| <= 9;
  }

  /** The five stages hold at most two words and eleven characters. */
  lemma HoldsAtMost(r: HbBus.Run)
    requires HbDeword.Inv(r.ch.dw.s)
    ensures |HbBus.Undelivered(r)| <= 29
  {
    var words := r.ch.HeldWords();
    FewChars(r.ch);
    assert |HbIdle.Held(r.ch.idle.s)| <= 1 && |HbInts.Held(r.ch.ints.s)| <= 1;
    KeepIsShorter(IsPayload, r.ch.HeldChars());
    KeepIsShorter(IsResponse, words);
    RenderedLength(Keep(IsResponse, words));
  }

  /**
   * As long as no response was dropped, the text of the responses handed on is at
   * most 29 characters ahead of the text delivered.
   */
  lemma Capacity(r: HbBus.Run, dev: Device)
    requires HbBus.Inv(r, dev) && !r.overrun
    ensures |RenderAll(r.ex.rsps)| <= |Keep(IsPayload, r.ch.Delivered())| + 29
  {
    ResponseChain.StreamAt(r.ch);
    HoldsAtMost(r);
  }

  // A run that overruns it.

  /** An 'A' comes in, and the transmitter takes nothing. */
  const FLOOD := HbBus.Input(true, 65, false, false, false, 0, false, true)

  /** Every part of the command path is handing on an address command or its echo. */
  predicate Flooded(r: HbBus.Run) {
    && HbExec.Inv(r.ex.s)
    && r.cmd.s.dh == HbDechex.State(false, true, 18)
    && r.cmd.s.pk.loaded && r.cmd.s.pk.stb && r.cmd.s.pk.out.kind == ADDR && r.cmd.s.pk.word.kind == ADDR
    && !r.ex.s.cyc && r.ex.s.newaddr && r.ex.s.rspStb
  }

  lemma FloodStep(r: HbBus.Run)
    requires Flooded(r) && r.ch.Delivered() == []
    ensures var n := HbBus.Step(r, FLOOD);
            Flooded(n) && n.ch.Delivered() == [] && |n.ex.rsps| == |r.ex.rsps| + 1
  {
    HbBus.HandsOn(r, FLOOD);
    var n := HbBus.Step(r, FLOOD);
    assert n.S() == HbBus.Next(r.S(), FLOOD);
  }

  function Flood(n: nat): seq<HbBus.Input> { if n == 0 then [] else Flood(n - 1) + [FLOOD] }

  lemma {:induction false} FloodLength(n: nat)
    ensures |Flood(n)| == n
  {
    if n > 0 {
      FloodLength(n - 1);
    }
  }

  lemma AfterOneMore(s: HbBus.State, before: seq<HbBus.Input>, r: HbBus.Run, ins: seq<HbBus.Input>)
    requires HbExec.Inv(s.exec) && HbExec.Inv(r.ex.s) && ins == before + [FLOOD] && HbBus.After(s, before) == r
    ensures HbBus.After(s, ins) == HbBus.Step(r, FLOOD)
  {
    assert ins[..|ins| - 1] == before;
  }

  /** How far the first 'A' has got: `k` clocks after the reset at power-up. */
  predicate Rising(r: HbBus.Run, k: nat) {
    && HbExec.Inv(r.ex.s)
    && r.cmd.s.dh == HbDechex.State(false, true, 18)
    && !r.ex.s.cyc && r.ch.Delivered() == []
    && (if k == 0 then r.cmd.s.pk == HbPack.INIT
        else r.cmd.s.pk.loaded && r.cmd.s.pk.word.kind == ADDR
             && (if k == 1 then !r.cmd.s.pk.stb else r.cmd.s.pk.stb && r.cmd.s.pk.out.kind == ADDR))
    && (k > 2 ==> r.ex.s.newaddr)
    && (k > 3 ==> r.ex.s.rspStb)
  }

  lemma FirstReset(s: HbBus.State)
    requires HbBus.Initial(s) && HbExec.Inv(s.exec)
    ensures Rising(HbBus.Step(HbBus.Start(s), FLOOD), 0)
  {}

  lemma Rises(r: HbBus.Run, k: nat)
    requires Rising(r, k)
    ensures Rising(HbBus.Step(r, FLOOD), k + 1)
  {
    var n := HbBus.Step(r, FLOOD);
    assert n.S() == HbBus.Next(r.S(), FLOOD);
  }

  lemma FloodsOn(r: HbBus.Run, k: nat)
    requires Rising(r, k) && (k >= 4 ==> |r.ex.rsps| >= k - 4)
    ensures var n := HbBus.Step(r, FLOOD);
            Rising(n, k + 1) && (k + 1 >= 4 ==> |n.ex.rsps| >= k + 1 - 4)
  {
    Rises(r, k);
    if k >= 4 {
      FloodStep(r);
    }
  }

  /** After five clocks each one brings another echo, and none is delivered. */
  lemma {:induction false} Floods(s: HbBus.State, n: nat, ins: seq<HbBus.Input>, r: HbBus.Run)
    requires HbBus.Initial(s) && HbExec.Inv(s.exec) && ins == Flood(n + 1) && r == HbBus.After(s, ins)
    ensures Rising(r, n) && (n >= 4 ==> |r.ex.rsps| >= n - 4)
  {
    var before := Flood(n);
    var p := HbBus.After(s, before);
    AfterOneMore(s, before, p, ins);
    if n == 0 {
      FirstReset(s);
    } else {
      Floods(s, n - 1, before, p);
      FloodsOn(p, n - 1);
    }
  }

  lemma NothingAnswered(r: HbBus.Run, dev: Device)
    requires HbExec.Inv(r.ex.s)
    ensures HbBus.SlaveIsLegal(r, FLOOD, dev)
  {}

  lemma {:induction false} FloodIsLegal(s: HbBus.State, n: nat, dev: Device)
    requires HbExec.Inv(s.exec)
    ensures HbBus.LegalRun(s, Flood(n), dev)
  {
    if n > 0 {
      FloodIsLegal(s, n - 1, dev);
      FloodLength(n - 1);
      var before := Flood(n - 1);
      assert Flood(n)[..|Flood(n)| - 1] == before;
      NothingAnswered(HbBus.After(s, before), dev);
    }
  }

  predicate Swamped(r: HbBus.Run) { r.ch.Delivered() == [] && |r.ex.rsps| > 29 }

  lemma FloodSwamps(s: HbBus.State, n: nat, ins: seq<HbBus.Input>, r: HbBus.Run)
    requires HbBus.Initial(s) && HbExec.Inv(s.exec) && n >= 35 && ins == Flood(n) && r == HbBus.After(s, ins)
    ensures Swamped(r)
  {
    Floods(s, n - 1, ins, r);
  }

  lemma FloodKeepsInv(s: HbBus.State, n: nat, dev: Device)
    requires HbBus.Initial(s) && HbExec.Inv(s.exec)
    ensures HbBus.Inv(HbBus.After(s, Flood(n)), dev)
  {
    FloodIsLegal(s, n, dev);
    HbBus.Reachable(s, Flood(n), dev);
  }

  /** With the transmitter stalled, a stream of 'A' overruns the port: a response is dropped. */
  lemma FloodOverruns(s: HbBus.State, n: nat, dev: Device)
    requires HbBus.Initial(s) && HbExec.Inv(s.exec) && n >= 35
    ensures var r := HbBus.After(s, Flood(n)); r.overrun && !HbBus.AllAccountedFor(r)
  {
    var r := HbBus.After(s, Flood(n));
    FloodSwamps(s, n, Flood(n), r);
    FloodKeepsInv(s, n, dev);
    TooMany(r, dev);
  }

  lemma TooMany(r: HbBus.Run, dev: Device)
    requires HbBus.Inv(r, dev) && Swamped(r)
    ensures r.overrun && !HbBus.AllAccountedFor(r)
  {
    RenderedLength(r.ex.rsps);
    if !r.overrun {
      Capacity(r, dev);
    }
    HbBus.DeliveredAt(r, dev);
  }

  // A pace that never overruns it.

  /** The reader has seen the first character of the last response handed on. */
  predicate Begun(r: HbBus.Run) {
    r.ex.rsps == [] ||
    |Keep(IsPayload, r.ch.Delivered())| > |RenderAll(r.ex.rsps[..|r.ex.rsps| - 1])|
  }

  /** No response is handed on before the reader has seen the beginning of the one before. */
  predicate PacedByReader(s: HbBus.State, ins: seq<HbBus.Input>)
    requires HbExec.Inv(s.exec)
  {
    ins != [] ==>
      var r := HbBus.After(s, ins[..|ins| - 1]);
      PacedByReader(s, ins[..|ins| - 1]) && (r.ex.s.rspStb && !r.cmd.s.dh.reset ==> Begun(r))
  }

  /** A full hbints holds a response, the last one accepted. */
  lemma LastIsHeld(ch: ResponseChain.Run)
    requires ResponseChain.StagesInv(ch) && (forall w <- ch.Accepted() :: IsBusResponse(w))
    requires ResponseChain.Plain(ch) && HbInts.Busy(ch.ints.s)
    ensures ch.Accepted() != [] && ch.Accepted()[|ch.Accepted()| - 1] == ch.ints.s.word
    ensures IsResponse(ch.ints.s.word)
  {
    var r, w := ch.ints, ch.ints.s.word;
    assert HbInts.Held(r.s) == [w];
    KeepAppend(HbInts.IsOther, r.sent, [w]);
    KeepAll(HbInts.IsOther, r.taken);
    assert r.taken == Keep(HbInts.IsOther, r.sent) + [w];
    BusResponseIsPayload(w);
  }

  lemma StreamLengths(ch: ResponseChain.Run)
    requires ResponseChain.StagesInv(ch) && forall w <- ch.Accepted() :: IsBusResponse(w)
    ensures |Keep(IsPayload, ch.Delivered())| + |RenderAll(Keep(IsResponse, ch.HeldWords()))| <= |RenderAll(ch.Accepted())|
  {
    ResponseChain.StreamAt(ch);
  }

  lemma HeldLonger(ch: ResponseChain.Run, w: Word)
    requires HbInts.Held(ch.ints.s) == [w] && IsResponse(w)
    ensures |RenderAll(Keep(IsResponse, ch.HeldWords()))| >= |Render(w)|
  {
    var before := HbIdle.Held(ch.idle.s);
    KeepAppend(IsResponse, before, [w]);
    assert Keep(IsResponse, [w]) == [w];
    HbBus.RenderGrows(Keep(IsResponse, before), w);
  }

  lemma AllButLast(ws: seq<Word>, w: Word)
    requires ws != [] && ws[|ws| - 1] == w
    ensures |RenderAll(ws)| == |RenderAll(ws[..|ws| - 1])| + |Render(w)|
  {
    var init := ws[..|ws| - 1];
    assert init + [w] == ws;
    HbBus.RenderGrows(init, w);
  }

  /** So no character of it has been delivered. */
  lemma LastIsWhole(ch: ResponseChain.Run)
    requires ResponseChain.StagesInv(ch) && (forall w <- ch.Accepted() :: IsBusResponse(w))
    requires ResponseChain.Plain(ch) && HbInts.Busy(ch.ints.s)
    ensures ch.Accepted() != [] &&
            |Keep(IsPayload, ch.Delivered())| <= |RenderAll(ch.Accepted()[..|ch.Accepted()| - 1])|
  {
    var w := ch.ints.s.word;
    LastIsHeld(ch);
    StreamLengths(ch);
    AllButLast(ch.Accepted(), w);
    HeldLonger(ch, w);
  }

  lemma LastNotBegun(r: HbBus.Run, dev: Device)
    requires HbBus.Inv(r, dev) && !r.overrun && HbInts.Busy(r.ch.ints.s)
    ensures !Begun(r)
  {
    LastIsWhole(r.ch);
  }

  lemma PacedStep(r: HbBus.Run, i: HbBus.Input, dev: Device)
    requires HbBus.Inv(r, dev) && !r.overrun
    requires r.ex.s.rspStb && !r.cmd.s.dh.reset ==> Begun(r)
    ensures !HbBus.Step(r, i).overrun
  {
    if HbInts.Busy(r.ch.ints.s) {
      LastNotBegun(r, dev);
    }
  }

  /**
   * A reader that lets no response be handed on before it has seen the first
   * character of the one before loses none: all of them are delivered or held.
   */
  lemma {:induction false} PacedLosesNothing(s: HbBus.State, ins: seq<HbBus.Input>, dev: Device)
    requires HbBus.Initial(s) && HbExec.Inv(s.exec) && HbBus.LegalRun(s, ins, dev)
    requires PacedByReader(s, ins)
    ensures var r := HbBus.After(s, ins); !r.overrun && HbBus.AllAccountedFor(r)
  {
    HbBus.Reachable(s, ins, dev);
    if ins != [] {
      var before := ins[..|ins| - 1];
      PacedLosesNothing(s, before, dev);
      HbBus.Reachable(s, before, dev);
      PacedStep(HbBus.After(s, before), ins[|ins| - 1], dev);
    }
    HbBus.DeliveredAt(HbBus.After(s, ins), dev);
  }
}
