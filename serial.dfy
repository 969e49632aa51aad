/**
 * The serial echo application: the receive channel fills a static 8-byte buffer, the
 * completion interrupt hands a copy of it to the `echo` task, and `echo` sends it back
 * through the transmit channel from a second static buffer.
 *
 * The transmit side is a resource `send` holding either an idle buffer and channel or a
 * running write transfer. Handlers move it out with `take`, transform it, and put it
 * back with `replace`; `App.Valid()` is the invariant that holds between handlers.
 */
module Serial {
  import opened Hal

  const BUF_SIZE: nat := 8

  /** Ownership state of the transmit side. */
  datatype TxTransfer =
    | Running(transfer: Transfer<TxDma>)
    | Idle(buf: array<Byte>, tx: TxDma)

  class App {
    /** The two static buffers and the two DMA channels, fixed at start-up. */
    const txBuf: array<Byte>
    const rxBuf: array<Byte>
    const txDma: TxDma
    const rxDma: RxDma

    /** Shared resource of `echo` and `on_tx`. */
    var send: Option<TxTransfer>
    /** Local resource of `on_rx`. */
    var recv: Option<Transfer<RxDma>>

    /** Buffers and channels are what start-up gave; they never change identity. */
    ghost predicate Wired()
      reads this
    {
      txBuf.Length == BUF_SIZE && rxBuf.Length == BUF_SIZE && txBuf != rxBuf
    }

    /**
     * Whatever `send` holds is built from the transmit buffer and channel, and the
     * channel owns the buffer exactly when the state is `Running`.
     */
    ghost predicate TxOwnership()
      reads this, txDma
    {
      match send
      case None => true
      case Some(Idle(b, c)) => b == txBuf && c == txDma && txDma.inFlight == None
      case Some(Running(t)) => t == Transfer(txBuf, txDma) && txDma.inFlight == Some(txBuf)
    }

    /**
     * The receive channel never owns anything but the receive buffer, and a pending
     * receive owns it.
     */
    ghost predicate RxOwnership()
      reads this, rxDma
    {
      (rxDma.inFlight.Some? ==> rxDma.inFlight.value == rxBuf) &&
      match recv
      case None => true
      case Some(t) => t == Transfer(rxBuf, rxDma) && rxDma.inFlight == Some(rxBuf)
    }

    /** Between handlers both resources are present and ownership is consistent. */
    ghost predicate Valid()
      reads this, txDma, rxDma
    {
      Wired() && TxOwnership() && RxOwnership() && send.Some? && recv.Some?
    }

    /** A buffer that a running DMA transfer owns. */
    ghost predicate DmaOwned(b: array<Byte>)
      reads txDma, rxDma
    {
      txDma.inFlight == Some(b) || rxDma.inFlight == Some(b)
    }

    /** The resources `init` hands over: an idle transmitter and a receive already armed. */
    constructor ()
      ensures Valid()
      ensures send == Some(Idle(txBuf, txDma))
      ensures recv == Some(Transfer(rxBuf, rxDma))
      ensures txBuf[..] == seq(BUF_SIZE, _ => 0) && txDma.line == []
      ensures fresh(txBuf) && fresh(rxBuf) && fresh(txDma) && fresh(rxDma)
    {
      txBuf := new Byte[BUF_SIZE](_ => 0);
      rxBuf := new Byte[BUF_SIZE](_ => 0);
      txDma := new TxDma();
      var rx := new RxDma();
      rxDma := rx;
      send := Some(Idle(txBuf, txDma));
      new;
      var t := Read(rx, rxBuf);
      recv := Some(t);
    }

    /**
     * `on_rx`, run when the receive transfer completes: take the transfer, wait for it,
     * offer a copy of the received bytes to `echo` (the returned value; whether the
     * spawn queue accepts it does not matter to this handler) and re-arm the receive
     * on the same buffer.
     */
    method OnRx(received: seq<Byte>) returns (exit: Exit<seq<Byte>>)
      requires Wired() && TxOwnership() && RxOwnership()
      requires |received| == BUF_SIZE
      modifies this, rxDma, rxBuf
      ensures Wired() && TxOwnership() && RxOwnership()
      ensures old(Valid()) ==> Valid() && exit.Returned?
      ensures send == old(send) && unchanged(txDma) && unchanged(txBuf)
      ensures old(recv).None? ==> exit == Panicked(UnwrapNone) && recv == None && unchanged(rxDma) && unchanged(rxBuf)
      ensures old(recv).Some? ==> exit == Returned(received) && recv == old(recv) && rxDma.inFlight == Some(rxBuf)
      ensures old(recv).Some? ==> rxBuf[..] == received
    {
      var taken := recv;
      recv := None;
      if taken.None? {
        return Panicked(UnwrapNone);
      }
      var buf, rx := WaitRead(taken.value, received);
      var data := buf[..];
      var t := Read(rx, buf);
      recv := Some(t);
      exit := Returned(data);
    }

    /** `copy_from_slice` into a buffer that no running transfer owns. */
    method CopyFromSlice(dst: array<Byte>, src: seq<Byte>)
      requires !DmaOwned(dst)
      requires dst.Length == |src|
      modifies dst
      ensures dst[..] == src
    {
      forall i | 0 <= i < dst.Length {
        dst[i] := src[i];
      }
    }

    /**
     * Recover the transmit buffer and channel from the taken state: directly when
     * idle, by waiting for the running write otherwise.
     */
    method Recover(state: TxTransfer) returns (buf: array<Byte>, tx: TxDma)
      requires Wired()
      requires state.Idle? ==> state.buf == txBuf && state.tx == txDma && txDma.inFlight == None
      requires state.Running? ==> state.transfer == Transfer(txBuf, txDma) && txDma.inFlight == Some(txBuf)
      modifies txDma
      ensures buf == txBuf && tx == txDma
      ensures txDma.inFlight == None && txDma.line == old(txDma.line)
    {
      match state
      case Idle(b, c) =>
        buf, tx := b, c;
      case Running(t) =>
        buf, tx := WaitWrite(t);
    }

    /**
     * The `echo` task: take the transmit state, recover buffer and channel (waiting for
     * a write still in flight), copy the received bytes into the buffer and start a new
     * write from it.
     */
    method Echo(data: seq<Byte>) returns (exit: Exit<()>)
      requires Wired() && TxOwnership() && RxOwnership()
      requires |data| == BUF_SIZE
      modifies this, txDma, txBuf
      ensures Wired() && TxOwnership() && RxOwnership()
      ensures old(Valid()) ==> Valid() && exit.Returned?
      ensures recv == old(recv) && unchanged(rxDma) && unchanged(rxBuf)
      ensures old(send).None? ==> exit == Panicked(UnwrapNone) && send == None && unchanged(txDma) && unchanged(txBuf)
      ensures old(send).Some? ==> exit == Returned(()) && send == Some(Running(Transfer(txBuf, txDma)))
      ensures old(send).Some? ==> txBuf[..] == data && txDma.line == old(txDma.line) + data
    {
      var taken := send;
      send := None;
      if taken.None? {
        return Panicked(UnwrapNone);
      }
      var buf, tx := Recover(taken.value);
      CopyFromSlice(buf, data);
      var t := Write(tx, buf);
      send := Some(Running(t));
      exit := Returned(());
    }

    /**
     * `on_tx`, run when a write completes: take the transmit state, recover buffer and
     * channel, report the bytes sent (the returned value) and park them as `Idle`.
     */
    method OnTx() returns (exit: Exit<seq<Byte>>)
      requires Wired() && TxOwnership() && RxOwnership()
      modifies this, txDma
      ensures Wired() && TxOwnership() && RxOwnership()
      ensures old(Valid()) ==> Valid() && exit.Returned?
      ensures recv == old(recv) && unchanged(rxDma) && unchanged(txBuf) && unchanged(rxBuf)
      ensures old(send).None? ==> exit == Panicked(UnwrapNone) && send == None && unchanged(txDma)
      ensures old(send).Some? ==> exit == Returned(txBuf[..]) && send == Some(Idle(txBuf, txDma))
      ensures old(send).Some? ==> txDma.inFlight == None && txDma.line == old(txDma.line)
    {
      var taken := send;
      send := None;
      if taken.None? {
        return Panicked(UnwrapNone);
      }
      var buf, tx := Recover(taken.value);
      send := Some(Idle(buf, tx));
      exit := Returned(buf[..]);
    }
  }

  /**
   * One echo round: the receive completes with `received`, `echo` runs on the copy
   * `on_rx` offered, and the write it started completes. The bytes end up on the line
   * and every resource is back in place.
   */
  method EchoRound(app: App, received: seq<Byte>) returns (sent: seq<Byte>)
    requires app.Valid()
    requires |received| == BUF_SIZE
    modifies app, app.rxDma, app.rxBuf, app.txDma, app.txBuf
    ensures app.Valid()
    ensures sent == received
    ensures app.txDma.line == old(app.txDma.line) + received
    ensures app.send == Some(Idle(app.txBuf, app.txDma))
  {
    var rx := app.OnRx(received);
    var data := rx.value;
    var echoed := app.Echo(data);
    var tx := app.OnTx();
    sent := tx.value;
  }
}
