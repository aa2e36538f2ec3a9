/**
 * Two ends of a serial line, each with its own bit time: txuartlite wired to
 * rxuartlite, and each of them wired to the other half of the simulator.
 */
module UartLink {
  import opened SerialLine
  import TxUart
  import RxUart
  import UartSimRx
  import UartSimTx

  /**
   * On every clock and for every schedule of offers, the bytes received are
   * exactly those the transmitter had accepted one delay earlier.
   */
  lemma RoundTrip(tp: TxUart.Params, offers: Feed, ttr: nat -> TxUart.State, line: Line, sent: Feed,
                  rp: RxUart.Params, rtr: nat -> RxUart.State, t: nat)
    requires TxUart.Runs(tp, offers, ttr) && TxUart.Drives(offers, ttr, line, sent)
    requires RxUart.Runs(rp, line, rtr) && RxUart.InTolerance(rp, tp.baud)
    ensures RxUart.Received(rtr, t) == SentBefore(sent, t - RxUart.Delay(rp, 1))
  {
    TxUart.Transmits(tp, offers, ttr, line, sent);
    RxUart.Receives(rp, tp.baud, 1, line, sent, rtr, t);
  }

  /** The same, from the transmitter to the simulator, whose other registers may hold anything at first. */
  lemma TargetToSimulator(tp: TxUart.Params, offers: Feed, ttr: nat -> TxUart.State, line: Line, sent: Feed,
                          c: nat, rtr: nat -> UartSimRx.Rx, t: nat)
    requires TxUart.Runs(tp, offers, ttr) && TxUart.Drives(offers, ttr, line, sent)
    requires UartSimRx.RxRuns(c, line, rtr) && UartSimRx.InTolerance(c, tp.baud)
    ensures UartSimRx.Received(rtr, t) == SentBefore(sent, t - UartSimRx.Delay(c, 1))
  {
    TxUart.Transmits(tp, offers, ttr, line, sent);
    UartSimRx.Receives(c, tp.baud, 1, line, sent, rtr, t);
  }

  /** The same, from the simulator to the receiver. */
  lemma SimulatorToTarget(c: nat, offers: Feed, ttr: nat -> UartSimTx.Tx, line: Line, sent: Feed,
                          rp: RxUart.Params, rtr: nat -> RxUart.State, t: nat)
    requires UartSimTx.TxRuns(c, offers, ttr) && UartSimTx.Shows(offers, ttr, line, sent)
    requires RxUart.Runs(rp, line, rtr) && RxUart.InTolerance(rp, c)
    ensures RxUart.Received(rtr, t) == SentBefore(sent, t - RxUart.Delay(rp, 0))
  {
    UartSimTx.Transmits(c, offers, ttr, line, sent);
    RxUart.Receives(rp, c, 0, line, sent, rtr, t);
  }

  /** Equal bit times are always within the tolerance. */
  lemma EqualBitTimes(rp: RxUart.Params, c: nat)
    requires rp.Ok() && 3 <= c
    ensures RxUart.InTolerance(rp, rp.baud) && UartSimRx.InTolerance(c, c)
  {}
}
