# Futurified: a one-shot closure as a pollable future

This project models the `Futurified` future of the `futurify` library (its
`futures 0.3` variant, `src/futures_03.rs`) and proves its lifecycle
properties. A handle holds a closure in an `Option` slot, a
`is_running` flag, and both ends of an `mpsc` channel. `wrap` stores the
closure. `wrap_eager` stores it and calls `run` at once. `run` sets the
flag, takes the closure out of the slot and spawns a worker thread. The
worker runs the closure and sends its value on the channel, printing a
message if the send fails. `poll` calls `run` when the flag is not set,
then does a non-blocking `try_recv`. It answers `Ready(x)` for a received
value and `Pending` otherwise.

The model has three modules:

- `Lifecycle` (lifecycle.dfy) is the state machine over values. `Handle<T>`
  holds the flag, the closure slot, the channel as a FIFO `seq<T>`, the
  closure moved into the spawned worker (`worker`), and whether the
  receiver has been dropped. It also keeps bookkeeping the source does not
  have: the closure's value and how many launches, sends and `Ready`
  answers there were. `Inv` is the invariant of every reachable handle.
  `Wrap`, `Run`, `Deliver`, `Drop`, `TryRecv` and `Poll` are the
  transitions, and each is proved to keep `Inv`.
- `Traces` (traces.dfy) runs any interleaving of polls, worker sends and
  the drop of the handle. Its lemmas prove what a run of any length can
  and cannot do.
- `Futures03` (futurified.dfy) is the class `Futurified`, updated in place.
  It keeps `wrapped` and `is_running` as in the source. One sequence,
  `channel`, stands for `tx` and `rx` together. Two more fields, `worker`
  and `receiverGone`, stand for the spawned worker and the dropped
  receiver, and there is ghost bookkeeping besides. Each method is
  proved to move `Snapshot()` exactly as the `Lifecycle` function it
  implements. Four client methods replay concrete uses of the handle.

A closure is represented by the value it returns. The worker thread is the
`WorkerDeliver` step, which may happen between any two calls on the handle.
It may also happen inside a `poll`, after `run` and before `try_recv`: the
`workerFirst` argument of `Poll` is the scheduler's choice of whether it
does. Without that argument a lazy handle's first poll could never be
`Ready`, which the real code allows when the worker is fast.

Three behaviours of the code are worth stating next to the crate's own
documentation of `Futurified` (src/futures_03.rs:56-59), which names
`thread::spawn` and `mpsc::channel`:

- The handle keeps its own `tx`, so the channel never reads as
  disconnected while the handle lives.
- The channel is an unbounded `mpsc` channel. One value at most is ever
  sent only because there is one worker and one send.
- After the `Ready`, every later poll answers `Pending`, because the
  channel stays empty.

## Model

| member | source | states |
|---|---|---|
| `Lifecycle.Wrap` | src/futures_03.rs:70-80 | a new handle satisfies the invariant, is not running, holds the closure in its slot, has an empty channel and no worker |
| `Futures03.Futurified.Wrap` | src/futures_03.rs:70-80 | the constructed object is valid and is exactly `Lifecycle.Wrap(f)`: not running, slot filled, empty channel, no launch |
| `Futures03.Futurified.WrapEager` | src/futures_03.rs:86-92 | the constructed object is exactly `wrap` followed by one `run`: running, slot empty, the closure in the worker, one launch |
| `Lifecycle.Run` | src/futures_03.rs:95-105 | from a valid handle with a filled slot: the flag is set, the slot is emptied, its closure moves intact into the one spawned worker (launches goes from 0 to 1), and the channel is unchanged |
| `Futures03.Futurified.Run` | src/futures_03.rs:95-105 | requires the slot to be filled (the `unwrap`); the new state is `Lifecycle.Run` of the old one, so the flag is set, the slot emptied and one launch recorded |
| `Lifecycle.Deliver` | src/futures_03.rs:99-104 | the worker's value is appended to the channel once, or dropped when the receiver is gone; the worker is then done and the handle's flag, slot and answers are untouched |
| `Futures03.Futurified.WorkerDeliver` | src/futures_03.rs:99-104 | callable only while a launched result is outstanding; the new state is `Lifecycle.Deliver` of the old one |
| `Lifecycle.Drop` | src/futures_03.rs:60-65 | dropping the handle marks the receiver gone, keeps the invariant, and changes nothing else |
| `Futures03.Futurified.Drop` | src/futures_03.rs:60-65 | the new state is `Lifecycle.Drop` of the old one: receiver gone, channel and worker unchanged |
| `Lifecycle.TryRecv` | src/futures_03.rs:116-120 | `Ready` exactly when the channel is non-empty, carrying its head (the closure's value) and removing only that element; `Pending` leaves the handle unchanged |
| `Lifecycle.Poll` | src/futures_03.rs:111-121 | afterwards the handle is running with exactly one launch, and a running handle is not relaunched; `Ready` exactly when the channel held a value or the worker sends first; a `Ready` carries the closure's value; a lazy handle's first poll without the worker going first is `Pending` |
| `Futures03.Futurified.Poll` | src/futures_03.rs:111-121 | the answer and the new state are `Lifecycle.Poll` of the old state; in general `Ready` exactly when the channel held a value or the worker sends first, carrying the closure's value; on a running handle whose worker does not go first, `Ready(x)` exactly when the channel was non-empty, with `x` its head removed, else `Pending` with the channel unchanged |
| `Traces.Step` | src/futures_03.rs:95-121 | every poll, send or drop that can happen keeps the invariant; a poll gives one answer, and a `Ready` among them carries the closure's value |
| `Traces.Exec` | src/futures_03.rs:95-121 | a run of any length keeps the invariant and gives one answer per poll |
| `Traces.RunningIsMonotone` | src/futures_03.rs:95-115 | over any run the flag never goes back to false, an emptied slot is never refilled, and a dropped receiver stays dropped |
| `Traces.LaunchAtMostOnce` | src/futures_03.rs:113-115 | over any run at most one worker is spawned (a bound kept by `Inv`, because `poll` runs `run` only while the flag is clear), a running handle spawns none, and a run with a poll ends with exactly one spawn and the closure consumed |
| `Traces.NoPollNoLaunch` | src/futures_03.rs:66-80 | a run with no poll spawns nothing: a lazy handle stays unstarted with its closure in place |
| `Traces.ReadyAtMostOnce` | src/futures_03.rs:99-120 | the `Ready` answers of a run are counted by the handle, and over the handle's whole life there is at most one |
| `Traces.ReadyIsFinal` | src/futures_03.rs:116-120 | in any run every poll after a `Ready` answers `Pending`, and a handle that has already answered `Ready` only ever answers `Pending` |
| `Traces.ReadyCarriesResult` | src/futures_03.rs:99-117 | every `Ready` of any run carries the value the wrapped closure returns |
| `Traces.ReadyOnceSent` | src/futures_03.rs:116-117 | a live running handle whose worker has sent and that has not yet answered `Ready` answers `Ready` with the closure's value on the next poll |
| `Traces.ReadyAfterSend` | src/futures_03.rs:99-120 | over a whole run: a live handle whose worker has yet to send and that has not answered `Ready` can take the worker's send and two polls, and they answer `Ready` with the closure's value, then `Pending`, whichever way the worker is interleaved |
| `Futures03.LazyScenario` | src/futures_03.rs:111-121 | wrap, poll, worker sends, poll, poll answers `Pending`, `Ready(v)`, `Pending` |
| `Futures03.EagerScenario` | src/futures_03.rs:86-92 | wrap_eager, poll, worker sends, poll, poll answers `Pending`, `Ready(v)`, `Pending` |
| `Futures03.RacedFirstPoll` | src/futures_03.rs:113-117 | when the worker spawned by the first poll sends before `try_recv`, that first poll is `Ready(v)` and the next is `Pending` |
| `Futures03.AbandonScenario` | src/futures_03.rs:101-103 | a handle polled once and dropped before the send: the send fails and the value is discarded: the final state is exactly wrap, poll, drop, send (valid, running, slot empty, one launch, no value sent, nothing on the channel, no `Ready`) |

## Left out

- Real threads and scheduling (`thread::spawn`, src/futures_03.rs:99) are not modelled. The worker is one step, `WorkerDeliver`, that may happen between any two calls, or inside a poll through `workerFirst`. Finer interleavings cannot be observed by the handle.
- The internals of `std::sync::mpsc` are not modelled: the channel is a FIFO sequence. `try_recv`'s `Empty` and `Disconnected` are not told apart, since `poll` maps both to `Pending`. The cloned `tx` moved into the worker is implicit in `worker`.
- The `println!` on a failed send (src/futures_03.rs:102) is I/O. It is modelled as "the value is dropped and nothing else changes".
- `Pin`, `Context` and wakers (src/futures_03.rs:111-112) are left out. The code ignores the context and registers no waker.
- That `poll` never blocks its caller is a timing property and cannot be stated here.
- A closure that panics or never returns is represented by a worker that never takes its `WorkerDeliver` step. The handle then answers `Pending` forever; no lemma singles this case out.
- Rust's ownership rules are not modelled: no one can poll or drop a dropped handle, and the closure cannot be touched once moved. They appear as the preconditions `!receiverGone` and `wrapped.Some?` and as the `worker` slot.
- src/lib.rs is left out: it only re-exports `wrap` and `wrap_eager` behind cargo features. The `futures_01` variant it names is not part of this model.
- The actix-web example in the crate documentation (src/futures_03.rs:9-46) is left out: it is illustrative only.
