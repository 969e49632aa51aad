/**
 * The circular receive application with idle-line detection: a DMA channel fills the
 * two 8-byte halves of a static buffer over and over. When a half completes, `on_rx`
 * forwards a copy of the readable half; when the line goes idle, `on_idle` stops the
 * transfer, works out how many bytes the half being filled has received from the
 * remaining-count register `ndtr`, reports that prefix and restarts the transfer.
 *
 * The two halves `[[u8; BUF_SIZE]; 2]` are laid out side by side, so the buffer is
 * modelled flat, with `buf[i]` of the source being `Row(buf, i)`.
 */
module SerialCircIdle {
  import opened Hal

  const BUF_SIZE: nat := 8

  /** `buf[i]` of the two-half buffer. */
  function Row(buf: seq<Byte>, i: nat): (r: seq<Byte>)
    requires |buf| == 2 * BUF_SIZE && i < 2
    ensures |r| == BUF_SIZE
  {
    buf[i * BUF_SIZE .. (i + 1) * BUF_SIZE]
  }

  /** The index of a half in the two-half buffer. */
  function Index(h: Half): (i: nat)
    ensures i < 2
  {
    match h
    case First => 0
    case Second => 1
  }

  /** The half the transfer is filling while `h` is the readable one. */
  function Filling(h: Half): (f: Half)
  {
    match h
    case First => Second
    case Second => First
  }

  /**
   * The values of the remaining-count register for which the idle data is defined:
   * the write position `2 * BUF_SIZE - ndtr` lies inside the half being filled.
   */
  predicate InWindow(half: Half, ndtr: int)
  {
    match half
    case First => 0 <= ndtr <= BUF_SIZE
    case Second => BUF_SIZE <= ndtr <= 2 * BUF_SIZE
  }

  /**
   * The data `on_idle` reports, computed as the firmware does it with overflow checks
   * on: the prefix of the half being filled that the transfer has written so far.
   *
   * It is defined exactly inside the window; then it is the stretch of the flat buffer
   * from the start of the half being filled up to the write position, so it never
   * reaches into the readable half. Outside the window a subtraction overflows.
   */
  function IdleSlice(buf: seq<Byte>, half: Half, ndtr: Usize): (r: Result<seq<Byte>, Panic>)
    requires |buf| == 2 * BUF_SIZE
    ensures r.Ok? <==> InWindow(half, ndtr)
    ensures r.Ok? ==> 2 * BUF_SIZE - ndtr >= Index(Filling(half)) * BUF_SIZE
    ensures r.Ok? ==> r.value == buf[Index(Filling(half)) * BUF_SIZE .. 2 * BUF_SIZE - ndtr]
    ensures r.Ok? ==> |r.value| <= BUF_SIZE && r.value <= Row(buf, Index(Filling(half)))
    ensures r.Err? ==> r.error == SubtractOverflow
  {
    match half
    case First =>
      (match CheckedSub(BUF_SIZE, ndtr)
       case None => Err(SubtractOverflow)
       case Some(end) => SliceTo(Row(buf, 1), end))
    case Second =>
      (match CheckedSub(ndtr, BUF_SIZE)
       case None => Err(SubtractOverflow)
       case Some(past) =>
         (match CheckedSub(BUF_SIZE, past)
          case None => Err(SubtractOverflow)
          case Some(end) => SliceTo(Row(buf, 0), end)))
  }

  /** The same computation with overflow checks off: subtractions wrap around. */
  function IdleSliceWrapping(buf: seq<Byte>, half: Half, ndtr: Usize): (r: Result<seq<Byte>, Panic>)
    requires |buf| == 2 * BUF_SIZE
  {
    match half
    case First => SliceTo(Row(buf, 1), WrappingSub(BUF_SIZE, ndtr))
    case Second => SliceTo(Row(buf, 0), WrappingSub(BUF_SIZE, WrappingSub(ndtr, BUF_SIZE)))
  }

  /**
   * Whether overflow checks are on or off, `on_idle` panics for the same `ndtr` and
   * otherwise reports the same bytes; with checks off the panic is the slice bound.
   */
  lemma WrappingAgrees(buf: seq<Byte>, half: Half, ndtr: Usize)
    requires |buf| == 2 * BUF_SIZE
    ensures IdleSliceWrapping(buf, half, ndtr).Ok? <==> InWindow(half, ndtr)
    ensures IdleSliceWrapping(buf, half, ndtr).Ok? ==> IdleSliceWrapping(buf, half, ndtr) == IdleSlice(buf, half, ndtr)
    ensures IdleSliceWrapping(buf, half, ndtr).Err? ==> IdleSliceWrapping(buf, half, ndtr).error.SliceEndOutOfRange?
  {
  }

  class App {
    /** The static two-half buffer and the receive channel, fixed at start-up. */
    const rxBuf: array<Byte>
    const rxDma: RxDma

    /** Shared resource of `on_rx` and `on_idle`. */
    var recv: Option<CircBuffer>

    ghost predicate Wired()
      reads this
    {
      rxBuf.Length == 2 * BUF_SIZE
    }

    /**
     * The receive channel never owns anything but the two-half buffer, and while
     * `recv` holds the circular transfer the channel is running on that buffer.
     */
    ghost predicate Ownership()
      reads this, rxDma
    {
      (rxDma.inFlight.Some? ==> rxDma.inFlight.value == rxBuf) &&
      (recv.Some? ==> recv.value == CircBuffer(rxBuf, rxDma) && rxDma.inFlight == Some(rxBuf))
    }

    /** Between handlers the circular transfer is present and running. */
    ghost predicate Valid()
      reads this, rxDma
    {
      Wired() && Ownership() && recv.Some?
    }

    /** The resource `init` hands over: a circular read already running on the buffer. */
    constructor ()
      ensures Valid()
      ensures rxBuf[..] == seq(2 * BUF_SIZE, _ => 0)
      ensures fresh(rxBuf) && fresh(rxDma)
    {
      rxBuf := new Byte[2 * BUF_SIZE](_ => 0);
      var rx := new RxDma();
      rxDma := rx;
      new;
      var c := CircRead(rx, rxBuf);
      recv := Some(c);
    }

    /**
     * `on_rx`, run when a half completes: peek at the transfer and offer a copy of the
     * readable half with its tag to the `print` task (the returned value; whether the
     * spawn queue accepts it does not matter). `peeked` is what the driver's peek
     * reports: the readable half, or an overrun. The transfer stays in place.
     */
    method OnRx(peeked: Result<Half, DmaError>) returns (exit: Exit<(seq<Byte>, Half)>)
      requires Wired()
      ensures recv.None? ==> exit == Panicked(UnwrapNone)
      ensures recv.Some? && peeked.Err? ==> exit == Panicked(UnwrapErr(peeked.error))
      ensures recv.Some? && peeked.Ok? ==>
        exit.Returned? && exit.value.1 == peeked.value &&
        exit.value.0 == Row(rxBuf[..], Index(peeked.value))
    {
      if recv.None? {
        return Panicked(UnwrapNone);
      }
      match peeked
      case Err(e) =>
        exit := Panicked(UnwrapErr(e));
      case Ok(half) =>
        var data := rxBuf[Index(half) * BUF_SIZE .. (Index(half) + 1) * BUF_SIZE];
        exit := Returned((data, half));
    }

    /**
     * `on_idle`, run when the line goes idle: take the transfer, ask which half is
     * readable (`readable`, the driver's answer), stop the transfer, read the
     * remaining count `ndtr`, report the prefix of the half being filled (the returned
     * value) and restart the circular read on the same buffer.
     */
    method OnIdle(readable: Result<Half, DmaError>, ndtr: Usize) returns (exit: Exit<seq<Byte>>)
      requires Wired() && Ownership()
      modifies this, rxDma
      ensures Wired() && Ownership()
      ensures Valid() <==> exit.Returned?
      ensures old(recv).None? ==> exit == Panicked(UnwrapNone) && recv == None && unchanged(rxDma)
      ensures old(recv).Some? && readable.Err? ==>
        exit == Panicked(UnwrapErr(readable.error)) && recv == None && unchanged(rxDma)
      ensures old(recv).Some? && readable.Ok? && !InWindow(readable.value, ndtr) ==>
        exit == Panicked(SubtractOverflow) && recv == None && rxDma.inFlight == None
      ensures old(recv).Some? && readable.Ok? && InWindow(readable.value, ndtr) ==>
        exit == Returned(IdleSlice(rxBuf[..], readable.value, ndtr).value) &&
        recv == old(recv) && rxDma.inFlight == Some(rxBuf)
    {
      var taken := recv;
      recv := None;
      if taken.None? {
        return Panicked(UnwrapNone);
      }
      if readable.Err? {
        return Panicked(UnwrapErr(readable.error));
      }
      var half := readable.value;
      var buf, rx := Stop(taken.value);
      var data := IdleSlice(buf[..], half, ndtr);
      if data.Err? {
        return Panicked(data.error);
      }
      var c := CircRead(rx, buf);
      recv := Some(c);
      exit := Returned(data.value);
    }
  }
}
