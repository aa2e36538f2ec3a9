/** The host's view of a scope: length and holdoff from the status word, and the trigger mark of an uncompressed trace. */
module ScopeHost {
  import opened HexWord
  import WbScope

  class Scope {
    /** Zero until the length has been read. */
    var scoplen: nat
    var holdoff: nat

    constructor ()
      ensures scoplen == 0 && holdoff == 0
    {
      scoplen, holdoff := 0, 0;
    }

    /** `v` is what a read of the status register would return; it is used only while the length is unknown. */
    method Scoplen(v: Word32) returns (length: nat)
      modifies this
      ensures length == scoplen
      ensures old(scoplen) != 0 ==> scoplen == old(scoplen) && holdoff == old(holdoff)
      ensures old(scoplen) == 0 ==>
                && holdoff == WbScope.HoldoffField(v)
                && scoplen == if WbScope.LengthField(v) == 0 then 0 else WbScope.Pow2(WbScope.LengthField(v))
    {
      if scoplen == 0 {
        holdoff := v % 0x10_0000;
        var lgln := (v / 0x10_0000) % 32;
        if lgln != 0 {
          scoplen := WbScope.Pow2(lgln);
        }
      }
      length := scoplen;
    }

    /** Stopped and triggered; unlike `Scoplen` it takes a zero length field as a length of one. */
    method Ready(v: Word32) returns (ready: bool)
      modifies this
      ensures ready == WbScope.ReadyField(v)
      ensures old(scoplen) != 0 ==> scoplen == old(scoplen) && holdoff == old(holdoff)
      ensures old(scoplen) == 0 ==>
                holdoff == WbScope.HoldoffField(v) && scoplen == WbScope.Pow2(WbScope.LengthField(v))
    {
      if scoplen == 0 {
        scoplen := WbScope.Pow2((v / 0x10_0000) % 32);
        holdoff := v % 0x10_0000;
      }
      ready := (v / 0x2000_0000) % 4 == 3;
    }

    /** The trigger column of the trace: one entry a data word, set on the trigger. */
    method TriggerColumn() returns (marks: seq<bool>)
      ensures |marks| == scoplen
      ensures forall i :: 0 <= i < scoplen ==> (marks[i] <==> i == scoplen - holdoff - 1)
    {
      var offset := scoplen - holdoff - 1;
      marks := [];
      for i := 0 to scoplen
        invariant |marks| == i
        invariant forall k :: 0 <= k < i ==> (marks[k] <==> k == offset)
      {
        marks := marks + [i == offset];
      }
    }
  }

  /**
   * The index the host marks, from the length and holdoff in the word that a read
   * of the status register returns over the bus, is the one where the triggering
   * sample is read back, and the word says ready, for a scope that saw a sample on
   * every clock and has a holdoff shorter than its memory.
   */
  lemma HostMarksTrigger(s: WbScope.State, ins: seq<WbScope.Input>, i1: WbScope.Input, i2: WbScope.Input)
    requires WbScope.Initial(s) && (forall i <- ins :: i.ce) && i1.ce && WbScope.ReadsStatus(i1)
    requires var r := WbScope.After(s, ins);
             r.s.cfg.run && r.s.cap.stopped && r.s.cfg.holdoff < s.p.size
    ensures var r := WbScope.After(s, ins);
            var v := WbScope.Next(WbScope.Next(r.s, i1), i2).rd.busData;
            var marked := WbScope.Pow2(WbScope.LengthField(v)) - WbScope.HoldoffField(v) - 1;
            && WbScope.ReadyField(v)
            && 0 <= marked < |WbScope.Window(r.s.cap)| == s.p.size
            && WbScope.Window(r.s.cap)[marked] == r.mark
  {
    var r := WbScope.After(s, ins);
    WbScope.Reachable(s, ins);
    WbScope.StatusRead(r.s, i1, i2);
    WbScope.TriggerPlacement(s, ins);
    WbScope.AlwaysSampled(s, ins);
  }

  /** Before the scope has stopped, or triggered, the word says it is not ready. */
  lemma HostWaits(s: WbScope.State, i1: WbScope.Input, i2: WbScope.Input)
    requires WbScope.Ok(s) && WbScope.ReadsStatus(i1)
    ensures WbScope.ReadyField(WbScope.Next(WbScope.Next(s, i1), i2).rd.busData)
            <==> WbScope.Next(s, i1).cap.stopped && WbScope.Next(s, i1).cap.triggered
  {
    WbScope.StatusRead(s, i1, i2);
  }
}
