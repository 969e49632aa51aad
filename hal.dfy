/**
 * The slice of the microcontroller support layer that the two serial applications
 * rely on: bytes, the handler outcome (return or panic), 32-bit `usize` arithmetic,
 * and the DMA channels of USART1 with the operations that move a static buffer into
 * a running transfer and back out of it.
 *
 * The driver code itself is not part of this model. Each channel only records which
 * buffer a running transfer currently owns (`inFlight`), and the transmit channel
 * records the bytes it has been asked to put on the line.
 */
module Hal {

  type Byte = bv8

  datatype Option<T> = None | Some(value: T)

  datatype Result<T, E> = Ok(value: T) | Err(error: E)

  /** The error a circular transfer reports when both halves completed unread. */
  datatype DmaError = Overrun

  /** Why a handler panicked (the firmware then halts). */
  datatype Panic =
    | UnwrapNone                           // `Option::unwrap` on `None`
    | UnwrapErr(error: DmaError)           // `Result::unwrap` on `Err`
    | SubtractOverflow                     // `usize` subtraction below zero (overflow checks on)
    | SliceEndOutOfRange(end: nat, len: nat)  // `s[..end]` with `end > s.len()`

  /** Outcome of one run of an interrupt handler or software task. */
  datatype Exit<T> = Returned(value: T) | Panicked(cause: Panic)

  // ---------------------------------------------------------------------------
  // usize on a 32-bit Cortex-M target
  // ---------------------------------------------------------------------------

  const USIZE_MODULUS: int := 0x1_0000_0000

  type Usize = n: int | 0 <= n < USIZE_MODULUS

  /** `a - b` with overflow checks enabled: `None` stands for the overflow panic. */
  function CheckedSub(a: Usize, b: Usize): (r: Option<Usize>)
    ensures r.Some? <==> b <= a
    ensures r.Some? ==> r.value + b == a
  {
    if b <= a then Some(a - b) else None
  }

  /** `a - b` with overflow checks disabled: two's-complement wrap-around. */
  function WrappingSub(a: Usize, b: Usize): (r: Usize)
    ensures b <= a ==> r == a - b
    ensures a < b ==> r == USIZE_MODULUS + a - b
  {
    (a - b) % USIZE_MODULUS
  }

  /** `&s[..end]`: the first `end` elements, or the bounds-check panic. */
  function SliceTo<T>(s: seq<T>, end: nat): (r: Result<seq<T>, Panic>)
    ensures r.Ok? <==> end <= |s|
    ensures r.Ok? ==> |r.value| == end && r.value <= s
    ensures r.Err? ==> r.error == SliceEndOutOfRange(end, |s|)
  {
    if end <= |s| then Ok(s[..end]) else Err(SliceEndOutOfRange(end, |s|))
  }

  // ---------------------------------------------------------------------------
  // DMA channels and transfers
  // ---------------------------------------------------------------------------

  /** The two halves of a circular (double) buffer. */
  datatype Half = First | Second

  /** USART1 transmit side driven by a DMA channel (`TxDma<Tx<USART1>, C4>`). */
  class TxDma {
    /** The buffer a running write transfer owns, if one is running. */
    var inFlight: Option<array<Byte>>
    /** Every byte handed to the line, in order. */
    var line: seq<Byte>

    constructor ()
      ensures inFlight == None && line == []
    {
      inFlight := None;
      line := [];
    }
  }

  /** USART1 receive side driven by a DMA channel (`RxDma<Rx<USART1>, C5>`). */
  class RxDma {
    /** The buffer a running read (one-shot or circular) owns, if one is running. */
    var inFlight: Option<array<Byte>>

    constructor ()
      ensures inFlight == None
    {
      inFlight := None;
    }
  }

  /** A running one-shot transfer: it owns the buffer and the channel until waited on. */
  datatype Transfer<C> = Transfer(buf: array<Byte>, chan: C)

  /** A running circular read into a two-half buffer (`CircBuffer`). */
  datatype CircBuffer = CircBuffer(buf: array<Byte>, rx: RxDma)

  /** `tx.write(buf)`: start sending the whole buffer; the transfer takes it over. */
  method Write(tx: TxDma, buf: array<Byte>) returns (t: Transfer<TxDma>)
    requires tx.inFlight == None
    modifies tx
    ensures t == Transfer(buf, tx)
    ensures tx.inFlight == Some(buf)
    ensures tx.line == old(tx.line) + buf[..]
  {
    tx.line := tx.line + buf[..];
    tx.inFlight := Some(buf);
    t := Transfer(buf, tx);
  }

  /** `transfer.wait()` on a write: block until it completes, give back buffer and channel. */
  method WaitWrite(t: Transfer<TxDma>) returns (buf: array<Byte>, tx: TxDma)
    requires t.chan.inFlight == Some(t.buf)
    modifies t.chan
    ensures buf == t.buf && tx == t.chan
    ensures tx.inFlight == None && tx.line == old(tx.line)
  {
    t.chan.inFlight := None;
    buf, tx := t.buf, t.chan;
  }

  /** `rx.read(buf)`: start filling the whole buffer; the transfer takes it over. */
  method Read(rx: RxDma, buf: array<Byte>) returns (t: Transfer<RxDma>)
    requires rx.inFlight == None
    modifies rx
    ensures t == Transfer(buf, rx)
    ensures rx.inFlight == Some(buf)
  {
    rx.inFlight := Some(buf);
    t := Transfer(buf, rx);
  }

  /**
   * `transfer.wait()` on a read: block until the buffer is full and give back buffer
   * and channel. `received` is what arrived on the line while the transfer ran.
   */
  method WaitRead(t: Transfer<RxDma>, received: seq<Byte>) returns (buf: array<Byte>, rx: RxDma)
    requires t.chan.inFlight == Some(t.buf)
    requires |received| == t.buf.Length
    modifies t.chan, t.buf
    ensures buf == t.buf && rx == t.chan
    ensures rx.inFlight == None
    ensures buf[..] == received
  {
    forall i | 0 <= i < t.buf.Length {
      t.buf[i] := received[i];
    }
    t.chan.inFlight := None;
    buf, rx := t.buf, t.chan;
  }

  /** `rx.circ_read(buf)`: start filling both halves circularly, without end. */
  method CircRead(rx: RxDma, buf: array<Byte>) returns (c: CircBuffer)
    requires rx.inFlight == None
    modifies rx
    ensures c == CircBuffer(buf, rx)
    ensures rx.inFlight == Some(buf)
  {
    rx.inFlight := Some(buf);
    c := CircBuffer(buf, rx);
  }

  /** `circ.stop()`: halt the circular read and give back buffer and channel. */
  method Stop(c: CircBuffer) returns (buf: array<Byte>, rx: RxDma)
    requires c.rx.inFlight == Some(c.buf)
    modifies c.rx
    ensures buf == c.buf && rx == c.rx
    ensures rx.inFlight == None
  {
    c.rx.inFlight := None;
    buf, rx := c.buf, c.rx;
  }
}
