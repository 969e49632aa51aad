# Serial DMA handlers of an STM32F103 RTIC firmware, modelled in Dafny

The firmware runs a few small applications on an STM32F103. They use the RTIC
framework for interrupt-driven tasks and the STM32 HAL for USART1 and its DMA channels.
This project models the sequential logic of two of those applications:

- **`serial`** (echo). A one-shot DMA read fills an 8-byte receive buffer. The
  completion interrupt `on_rx` takes the receive transfer and waits for it. It then
  passes a copy of the bytes to the `echo` task and re-arms the read on the same buffer.
  The transmit side lives in the shared resource `send: Option<TxTransfer>`. A
  `TxTransfer` is either `Idle(buf, chan)` or `Running(transfer)`. `echo` and `on_tx`
  move it out with `take().unwrap()`, recover the buffer and channel (waiting for a
  running write first), and put it back with `replace`. `echo` leaves it `Running` after
  copying the data into the buffer and starting a write. `on_tx` leaves it `Idle`.
- **`serial_circ_idle`** (circular receive with idle-line detection). A circular DMA
  read fills the two 8-byte halves of a static buffer over and over. `on_rx` peeks at
  the readable half and forwards a copy of it with its `Half` tag. `on_idle` takes the
  transfer, asks which half is readable and stops the transfer. It then reads the
  remaining-count register `ndtr` and reports the prefix of the half being filled:
  `buf[1][..BUF_SIZE - ndtr]` or `buf[0][..BUF_SIZE - (ndtr - BUF_SIZE)]`. Finally it
  restarts the circular read on the same buffer.

Files:

- `hal.dfy` (module `Hal`): bytes, `Option`/`Result`, and the handler outcome
  `Exit<T> = Returned(value) | Panicked(cause)`. It also holds 32-bit `usize`
  subtraction (checked or wrapping) and slicing. Finally it holds the DMA channels as
  classes whose `inFlight` field names the buffer a running transfer owns. The driver
  calls `write`, `read`, `circ_read`, `wait` and `stop` are modelled as methods that move
  a buffer and channel into and out of a transfer.
- `serial.dfy` (module `Serial`): the `TxTransfer` datatype and class `App` with the
  `send` and `recv` resources and the three handlers.
- `serial_circ_idle.dfy` (module `SerialCircIdle`): the idle-slice computation as a pure
  function, its wrapping-arithmetic variant, and class `App` with `recv` and the two
  handlers.
- `circ_stream.dfy` (module `CircStream`): how the circular read writes a byte stream
  into the buffer, and the proof that the idle data is exactly the bytes received since
  the last half boundary.

Modelling conventions:

- A handler that panics (`unwrap` on `None` or `Err`, a `usize` subtraction overflow, a
  slice bound) returns `Panicked(cause)` instead of halting.
- What a handler passes on is its returned value: the argument given to `spawn`, or the
  bytes it logs.
- Inputs from hardware are parameters: the bytes received, the driver's answer for the
  readable half, and the register value `ndtr`.
- The firmware targets a 32-bit core, so `usize` is 32 bits wide.
- Ownership is checked by the verifier. Copying into a buffer requires that no running
  transfer owns it. Each driver call requires the channel to be in the matching state.
- Between handlers, each `App.Valid()` states that every `Option` resource is `Some` and
  agrees with the channel state. In the `serial` app, every handler that starts in
  `Valid()` returns and ends in `Valid()`. The circular app's handlers always keep
  `Wired() && Ownership()`. `on_rx` changes nothing. `on_idle` returns, ending in
  `Valid()`, exactly when the driver reports no error and `ndtr` is inside the window.
- `on_idle` asks for the readable half, then stops the transfer, then reads `ndtr`. The
  model keeps that order.

Because the slice is defined only inside a window of `ndtr` values (see
`SerialCircIdle.IdleSlice`), `on_idle` panics when the readable half it was given no
longer matches the register. One way this happens is a byte completing the second half
between `readable_half()` and `stop()`: the register then reloads to `2*BUF_SIZE`, which
is outside the window of `First`.

## Model

| member | source | states |
|---|---|---|
| `Hal.Write` | src/bin/serial.rs:93 | starting a write needs an idle channel; the transfer then owns the buffer and the whole buffer goes to the line |
| `Hal.WaitWrite` | src/bin/serial.rs:90 | waiting on a running write returns the same buffer and channel and leaves the channel idle |
| `Hal.Read` | src/bin/serial.rs:81 | starting a read needs an idle channel; the transfer then owns the buffer |
| `Hal.WaitRead` | src/bin/serial.rs:79 | waiting on a read returns the same buffer and channel, with the buffer holding exactly the bytes received |
| `Hal.CircRead` | src/bin/serial_circ_idle.rs:91 | starting a circular read needs an idle channel; the transfer then owns the two-half buffer |
| `Hal.Stop` | src/bin/serial_circ_idle.rs:81 | stopping a circular read returns the same buffer and channel and leaves the channel idle, without touching the buffer |
| `Serial.App.constructor` | src/bin/serial.rs:60-68 | the initial resources: `send` is `Idle` with the transmit buffer and channel, `recv` is a read running on the receive buffer; `Valid()` holds |
| `Serial.App.OnRx` | src/bin/serial.rs:78-82 | panics exactly when `recv` is `None`; otherwise the value offered to `echo` equals the bytes received, the read is re-armed on the same buffer and channel, `send` is untouched, and `Valid()` is preserved |
| `Serial.App.Recover` | src/bin/serial.rs:88-91 | from `Idle` or from `Running` (by waiting), gives back the transmit buffer and channel with no transfer in flight and nothing added to the line |
| `Serial.App.CopyFromSlice` | src/bin/serial.rs:92 | the buffer afterwards holds exactly the source bytes; callable only on a buffer that no running transfer owns |
| `Serial.App.Echo` | src/bin/serial.rs:85-94 | panics exactly when `send` is `None`; otherwise, whether `send` was `Idle` or `Running`, the buffer holds exactly `data`, that data is added to the line, `send` is `Some(Running(..))` on the same buffer and channel, and `Valid()` is preserved |
| `Serial.App.OnTx` | src/bin/serial.rs:98-106 | panics exactly when `send` is `None`; otherwise `send` is `Some(Idle(buf, tx))` with the recovered buffer and channel, no transfer is in flight, the value returned is the buffer's bytes, and `Valid()` is preserved |
| `Serial.EchoRound` | src/bin/serial.rs:78-106 | `on_rx`, then `echo` on the offered copy, then `on_tx`: the received bytes are exactly what is added to the line, and the state is `Valid()` with `send` `Idle` |
| `SerialCircIdle.IdleSlice` | src/bin/serial_circ_idle.rs:86-89 | defined exactly when `ndtr <= BUF_SIZE` for `First` and `BUF_SIZE <= ndtr <= 2*BUF_SIZE` for `Second`, with the overflow panic otherwise; the data is the buffer from the start of the half being filled up to the write position `2*BUF_SIZE - ndtr`, a prefix of that one half, of length at most `BUF_SIZE` |
| `SerialCircIdle.WrappingAgrees` | src/bin/serial_circ_idle.rs:86-89 | with overflow checks off, subtraction wraps: the handler panics (now on the slice bound) for exactly the same `ndtr` and otherwise reports the same bytes |
| `SerialCircIdle.App.constructor` | src/bin/serial_circ_idle.rs:49-55 | the initial resource: a circular read running on the two-half buffer; `Valid()` holds |
| `SerialCircIdle.App.OnRx` | src/bin/serial_circ_idle.rs:65-74 | panics exactly when `recv` is `None` or the peek fails; otherwise forwards a copy of the readable half (`buf[0]` for `First`, `buf[1]` for `Second`) with its tag, and changes no resource |
| `SerialCircIdle.App.OnIdle` | src/bin/serial_circ_idle.rs:78-92 | panics when `recv` is `None`, when the readable half is an error, or when `ndtr` is outside the window; otherwise reports the idle slice and restarts the circular read on the same buffer and channel. `Valid()` holds afterwards exactly when it returned |
| `CircStream.CircWriteAt` | src/bin/serial_circ_idle.rs:51 | the circular read started at line 51 puts each of the last `2*BUF_SIZE` bytes received at its position modulo `2*BUF_SIZE` of the two-half buffer |
| `CircStream.HalfDataIsLatest` | src/bin/serial_circ_idle.rs:65-74 | after any stream of at least `BUF_SIZE` bytes, the half that `on_rx` forwards for the half completed last is exactly the `BUF_SIZE` bytes received before the last half boundary |
| `CircStream.IdleDataIsLatest` | src/bin/serial_circ_idle.rs:80-89 | after any byte stream, with the register and the readable half as a circular read leaves them, the idle data is exactly the last `n % BUF_SIZE` bytes received: nothing lost, repeated or taken from the readable half |

## Left out

- Peripheral set-up in `init`: clocks, GPIO, AFIO, USART configuration and enabling DMA events. Only the initial resource values are modelled, as the constructors.
- RTIC dispatch: priorities, preemption, the `capacity = 4` spawn queues and the `#[lock_free]`, `#[shared]` and `#[local]` resource rules. A `spawn` is the handler's returned value. The source ignores whether the queue accepted it, so the model neither needs nor records that.
- The driver internals of `readable_half`, `peek`, `wait` and `stop`. The half reported by `readable_half()` or `peek` (or its overrun error) and the bytes a read receives are inputs. `CircStream.IdleDataIsLatest` and `CircStream.HalfDataIsLatest` assume the reported half is the one completed last.
- The raw register reads that clear the USART idle flag (`sr`, then `dr`). They have no effect on the data. `ndtr` is an input of `on_idle`.
- `defmt` logging, and the `print` task that only logs: the logged bytes are the handlers' returned values.
- `src/bin/serial_circ.rs` and `src/bin/rtic-tick.rs`. The first repeats the `on_rx` peek modelled here; the second only reschedules itself on the framework's timer.
- Hal.WaitWrite: the bytes of a write are recorded on the line when the write starts. Ownership guarantees that the buffer cannot change before the write completes, so this matches recording them at completion.
