/**
 * What the handlers' data means for the byte stream. A circular read writes the stream
 * lap by lap into the flat two-half buffer, so the n-th byte received lands at position
 * `n % (2 * BUF_SIZE)` (`CircWriteAt`); its remaining-count register counts down from
 * `2 * BUF_SIZE`, reloading when it reaches zero. If the driver reports as readable the half completed last (the second one
 * before anything completed, which is the driver's starting value), the slice that
 * `on_idle` computes is exactly the bytes received since the last half boundary.
 */
module CircStream {
  import opened Hal
  import opened SerialCircIdle

  const LEN: nat := 2 * BUF_SIZE

  /**
   * The flat buffer after a circular read, started on `init`, has received `stream`:
   * each lap of `LEN` bytes overwrites the buffer from its start.
   */
  function CircWrite(init: seq<Byte>, stream: seq<Byte>): (r: seq<Byte>)
    requires |init| == LEN
    ensures |r| == LEN
    decreases |stream|
  {
    if |stream| < LEN then stream + init[|stream|..]
    else CircWrite(stream[..LEN], stream[LEN..])
  }

  /** The remaining-count register after `n` bytes. */
  function Remaining(n: nat): (r: Usize)
    ensures 1 <= r <= LEN
  {
    LEN - n % LEN
  }

  /** The half completed last after `n` bytes (`Second` before any completes). */
  function LastCompleted(n: nat): (h: Half)
  {
    if n % LEN >= BUF_SIZE then First else Second
  }

  /**
   * With the register and the readable half as the hardware leaves them after `stream`
   * was received, the idle data is the tail of `stream` since the last half boundary:
   * no byte is missing, repeated or taken from the readable half.
   */
  lemma {:induction false} IdleDataIsLatest(init: seq<Byte>, stream: seq<Byte>)
    requires |init| == LEN
    ensures var n := |stream|;
      IdleSlice(CircWrite(init, stream), LastCompleted(n), Remaining(n))
        == Ok(stream[n - n % BUF_SIZE ..])
    decreases |stream|
  {
    var n := |stream|;
    if n < LEN {
      var buf := CircWrite(init, stream);
      FirstLap(buf, n);
      assert buf[n - n % BUF_SIZE .. n] == stream[n - n % BUF_SIZE ..];
    } else {
      var rest := stream[LEN..];
      IdleDataIsLatest(stream[..LEN], rest);
      NextLap(n);
      assert rest[|rest| - |rest| % BUF_SIZE ..] == stream[n - n % BUF_SIZE ..];
    }
  }

  /** Within the first lap the idle data runs from the last half boundary to byte `n`. */
  lemma FirstLap(buf: seq<Byte>, n: nat)
    requires |buf| == LEN && n < LEN
    ensures n % BUF_SIZE <= n
    ensures IdleSlice(buf, LastCompleted(n), Remaining(n)) == Ok(buf[n - n % BUF_SIZE .. n])
  {
  }

  /** A full lap changes neither the register, nor the readable half, nor the offset in it. */
  lemma NextLap(n: nat)
    requires n >= LEN
    ensures Remaining(n - LEN) == Remaining(n)
    ensures LastCompleted(n - LEN) == LastCompleted(n)
    ensures (n - LEN) % BUF_SIZE == n % BUF_SIZE
  {
    var q, r := n / LEN, n % LEN;
    assert n == LEN * q + r && q >= 1;
    assert n - LEN == LEN * (q - 1) + r;
  }

  /**
   * The lap definition agrees with the positional one: each of the last `LEN` bytes
   * received sits at its position modulo `LEN`.
   */
  lemma {:induction false} CircWriteAt(init: seq<Byte>, stream: seq<Byte>, i: nat)
    requires |init| == LEN
    requires |stream| - LEN <= i < |stream|
    ensures CircWrite(init, stream)[i % LEN] == stream[i]
    decreases |stream|
  {
    if |stream| < LEN {
      ModSmall(i);
      return;
    }
    var rest := stream[LEN..];
    if i >= LEN {
      CircWriteAt(stream[..LEN], rest, i - LEN);
      ModShift(i);
    } else {
      ModSmall(i);
      assert CircWrite(stream[..LEN], rest) == rest + stream[..LEN][|rest|..];
    }
  }

  lemma ModSmall(i: nat)
    requires i < LEN
    ensures i % LEN == i
  {
  }

  lemma ModShift(i: nat)
    requires i >= LEN
    ensures (i - LEN) % LEN == i % LEN
  {
  }

  /**
   * The last half to complete starts `BUF_SIZE` bytes before the last half boundary,
   * at the start of the row that `LastCompleted` names.
   */
  lemma HalfStart(n: nat, j: nat)
    requires n >= BUF_SIZE && j < BUF_SIZE
    ensures BUF_SIZE <= n - n % BUF_SIZE <= n < n - n % BUF_SIZE + BUF_SIZE
    ensures (n - n % BUF_SIZE - BUF_SIZE + j) % LEN == Index(LastCompleted(n)) * BUF_SIZE + j
  {
    var q, r := n / LEN, n % LEN;
    assert n == LEN * q + r;
    if r >= BUF_SIZE {
      assert n % BUF_SIZE == r - BUF_SIZE;
      assert n - n % BUF_SIZE - BUF_SIZE + j == LEN * q + j;
    } else {
      assert q >= 1;
      assert n % BUF_SIZE == r;
      assert n - n % BUF_SIZE - BUF_SIZE + j == LEN * (q - 1) + BUF_SIZE + j;
    }
  }

  /** One byte of the last half to complete, which starts at `start` of the stream. */
  lemma HalfByte(init: seq<Byte>, stream: seq<Byte>, start: nat, j: nat)
    requires |init| == LEN && |stream| >= BUF_SIZE && j < BUF_SIZE
    requires start + BUF_SIZE == |stream| - |stream| % BUF_SIZE
    ensures start + j < |stream|
    ensures Row(CircWrite(init, stream), Index(LastCompleted(|stream|)))[j] == stream[start + j]
  {
    HalfStart(|stream|, j);
    CircWriteAt(init, stream, start + j);
  }

  /**
   * When a half completes, the readable half that `on_rx` forwards is exactly the
   * `BUF_SIZE` bytes received before the last half boundary. Together with
   * `IdleDataIsLatest`, which covers the bytes after that boundary, the two handlers
   * report the most recent stretch of the stream without a gap or an overlap.
   */
  lemma {:induction false} HalfDataIsLatest(init: seq<Byte>, stream: seq<Byte>)
    requires |init| == LEN && |stream| >= BUF_SIZE
    ensures var n := |stream|;
      n - n % BUF_SIZE >= BUF_SIZE &&
      Row(CircWrite(init, stream), Index(LastCompleted(n)))
        == stream[n - n % BUF_SIZE - BUF_SIZE .. n - n % BUF_SIZE]
  {
    var n := |stream|;
    HalfStart(n, 0);
    var start: nat := n - n % BUF_SIZE - BUF_SIZE;
    var row := Row(CircWrite(init, stream), Index(LastCompleted(n)));
    var want := stream[start .. start + BUF_SIZE];
    forall j | 0 <= j < BUF_SIZE
      ensures row[j] == want[j]
    {
      HalfByte(init, stream, start, j);
    }
    SameElements(row, want);
  }

  lemma SameElements(a: seq<Byte>, b: seq<Byte>)
    requires |a| == |b| && forall j | 0 <= j < |a| :: a[j] == b[j]
    ensures a == b
  {
  }
}
