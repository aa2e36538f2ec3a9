/**
 * UARTSIM: one object with both halves, advanced together by `rawtick`.
 */
module UartSim {
  import opened SerialLine
  import opened UartSimRx
  import opened UartSimTx

  class Simulator {
    const baudCounts: nat
    var lastTx: bool
    var rxChangeCtr: int
    var rxReceiving: bool
    var rxBaudCounter: int
    var rxBusy: nat
    var rxData: Bits
    var txSending: bool
    var txBaudCounter: int
    var txBusy: nat
    var txData: Bits

    constructor (baudCounts: nat)
      ensures this.baudCounts == baudCounts && !RxHalf().receiving && !TxHalf().sending
    {
      this.baudCounts := baudCounts;
      rxBaudCounter, txBaudCounter := 0, 0;
      rxReceiving, txSending := false, false;
    }

    ghost function RxHalf(): Rx
      reads this
    {
      Rx(lastTx, rxChangeCtr, rxReceiving, rxBaudCounter, rxBusy, rxData)
    }

    ghost function TxHalf(): Tx
      reads this
    {
      Tx(txSending, txBaudCounter, txBusy, txData)
    }

    /**
     * One tick: the level `tx` comes in, `rx` goes out; `readable` is what the
     * connection has to be read, and `written` what is written to it.
     */
    method RawTick(tx: bool, readable: Offer) returns (rx: bool, written: Offer)
      modifies this
      ensures RxHalf() == RxNext(baudCounts, old(RxHalf()), tx) && written == Emits(old(RxHalf()))
      ensures TxHalf() == TxNext(baudCounts, old(TxHalf()), readable) && rx == Drives(old(TxHalf()), readable)
    {
      written := ReceiveTick(tx);
      rx := TransmitTick(readable);
    }

    method ReceiveTick(tx: bool) returns (written: Offer)
      modifies `lastTx, `rxChangeCtr, `rxReceiving, `rxBaudCounter, `rxBusy, `rxData
      ensures RxHalf() == RxNext(baudCounts, old(RxHalf()), tx) && written == Emits(old(RxHalf()))
    {
      written := Nothing;
      if !tx && lastTx {
        rxChangeCtr := 0;
      } else {
        rxChangeCtr := rxChangeCtr + 1;
      }
      lastTx := tx;
      if !rxReceiving {
        if !tx {
          rxReceiving := true;
          rxBaudCounter := baudCounts + baudCounts / 2 - 1;
          rxBaudCounter := rxBaudCounter - rxChangeCtr;
          rxBusy, rxData := 0, Fill(32, false);
        }
      } else if rxBaudCounter <= 0 {
        if rxBusy >= 256 {
          rxReceiving := false;
          written := Send(rxData[23..31]);
        } else {
          rxBusy := 2 * rxBusy + 1;
          rxData := rxData[1..] + [tx];
        }
        rxBaudCounter := baudCounts - 1;
      } else {
        rxBaudCounter := rxBaudCounter - 1;
      }
    }

    method TransmitTick(readable: Offer) returns (rx: bool)
      modifies `txSending, `txBaudCounter, `txBusy, `txData
      ensures TxHalf() == TxNext(baudCounts, old(TxHalf()), readable) && rx == Drives(old(TxHalf()), readable)
    {
      rx := true;
      if !txSending {
        if readable.Send? {
          txData := Loading(readable.byte);
          txBusy := 1023;
          txSending := true;
          rx := false;
          txBaudCounter := baudCounts - 1;
        }
      } else if txBaudCounter <= 0 {
        txData := txData[1..] + [false];
        txBusy := txBusy / 2;
        if txBusy == 0 {
          txSending := false;
        } else {
          txBaudCounter := baudCounts - 1;
        }
        rx := txData[0];
      } else {
        txBaudCounter := txBaudCounter - 1;
        rx := txData[0];
      }
    }
  }
}
