/** The lifecycle of a `Futurified` handle as a state machine over values.

    A handle turns a one-shot closure into a pollable future. The closure is
    represented by the value it returns; the worker thread that runs it is
    represented by the slot `worker`, which holds that closure from the moment
    it is spawned until it has tried to send its value on the channel.
    The class in module Futures03 is proved against the functions below. */
module Lifecycle {

  datatype Option<T> = None | Some(value: T)

  /** The two answers of `Future::poll`. */
  datatype PollResult<T> = Pending | Ready(value: T)

  /** A handle, its channel and the worker it may have spawned. The last four
      fields are bookkeeping that the source does not keep: the value the
      wrapped closure returns, how many workers were spawned, how many values
      were sent on the channel and how many `Ready` answers were given. */
  datatype Handle<T> = Handle(
    isRunning: bool,
    wrapped: Option<T>,
    channel: seq<T>,
    worker: Option<T>,
    receiverGone: bool,
    result: T,
    launches: nat,
    sent: nat,
    readies: nat
  )

  function Count<T>(o: Option<T>): nat {
    if o.Some? then 1 else 0
  }

  /** What holds of every reachable handle. */
  ghost predicate Inv<T>(h: Handle<T>) {
    // the flag is set exactly when the closure slot has been emptied
    && (h.isRunning <==> h.wrapped.None?)
    // one worker, spawned exactly when the flag was set
    && h.launches == (if h.isRunning then 1 else 0)
    // the closure is carried intact from the slot to the worker to the channel
    && (h.wrapped.Some? ==> h.wrapped.value == h.result)
    && (h.worker.Some? ==> h.worker.value == h.result)
    && (forall i :: 0 <= i < |h.channel| ==> h.channel[i] == h.result)
    // every value on the channel was sent and not yet received
    && |h.channel| + h.readies == h.sent
    // a worker sends at most once; while the receiver lives, no send is lost
    && h.sent + Count(h.worker) <= h.launches
    && (!h.receiverGone ==> h.sent + Count(h.worker) == h.launches)
  }

  /** `wrap`: a fresh channel, the closure stored, nothing started. */
  function Wrap<T>(f: T): (h: Handle<T>)
    ensures Inv(h)
    ensures !h.isRunning && h.wrapped == Some(f) && h.result == f
    ensures h.channel == [] && h.worker == None && !h.receiverGone
    ensures h.launches == 0 && h.readies == 0
  {
    Handle(false, Some(f), [], None, false, f, 0, 0, 0)
  }

  /** `Futurified::run`: set the flag, take the closure out of its slot and
      move it into a newly spawned worker. The slot must be filled: `unwrap`
      panics otherwise. */
  function Run<T>(h: Handle<T>): (r: Handle<T>)
    requires Inv(h) && h.wrapped.Some?
    ensures Inv(r)
    ensures r.isRunning && r.wrapped == None
    ensures r.launches == h.launches + 1 == 1
    ensures r.worker == h.wrapped
    ensures r.channel == h.channel && r.receiverGone == h.receiverGone
    ensures r.result == h.result && r.sent == h.sent && r.readies == h.readies
  {
    h.(isRunning := true, wrapped := None, worker := h.wrapped, launches := h.launches + 1)
  }

  /** The spawned worker runs its closure and sends the value: it lands on the
      channel, or is dropped when the receiver is gone (`send` fails). Either
      way the worker is done, and the handle's own fields are untouched. */
  function Deliver<T>(h: Handle<T>): (r: Handle<T>)
    requires Inv(h) && h.worker.Some?
    ensures Inv(r) && r.worker == None
    ensures r.channel == if h.receiverGone then h.channel else h.channel + [h.result]
    ensures r.sent == h.sent + (if h.receiverGone then 0 else 1)
    ensures r.isRunning == h.isRunning && r.wrapped == h.wrapped
    ensures r.receiverGone == h.receiverGone && r.result == h.result
    ensures r.launches == h.launches && r.readies == h.readies
  {
    var v := h.worker.value;
    if h.receiverGone then h.(worker := None)
    else h.(worker := None, channel := h.channel + [v], sent := h.sent + 1)
  }

  /** The handle is dropped, and with it the receiving end of the channel. */
  function Drop<T>(h: Handle<T>): (r: Handle<T>)
    requires Inv(h) && !h.receiverGone
    ensures Inv(r) && r.receiverGone
    ensures r.(receiverGone := false) == h
  {
    h.(receiverGone := true)
  }

  /** `rx.try_recv()` as `poll` uses it: the head of the channel if there is
      one, and nothing otherwise (an empty and a disconnected channel look
      the same to `poll`). */
  function TryRecv<T>(h: Handle<T>): (res: (PollResult<T>, Handle<T>))
    requires Inv(h)
    ensures Inv(res.1)
    ensures res.0.Ready? <==> h.channel != []
    ensures res.0.Ready? ==> res.0.value == h.result && h.channel == [res.0.value] + res.1.channel
    ensures res.0.Ready? ==> res.1 == h.(channel := res.1.channel, readies := h.readies + 1)
    ensures res.0.Pending? ==> res.1 == h
  {
    if |h.channel| == 0 then (Pending, h)
    else (Ready(h.channel[0]), h.(channel := h.channel[1..], readies := h.readies + 1))
  }

  /** `Future::poll`: start the worker if the flag is not set yet, then look
      at the channel without blocking. `workerFirst` is the scheduler's
      choice: whether the worker, if it still has to send, does so before the
      look at the channel. */
  function Poll<T>(h: Handle<T>, workerFirst: bool): (res: (PollResult<T>, Handle<T>))
    requires Inv(h) && !h.receiverGone
    ensures Inv(res.1) && res.1.isRunning && res.1.wrapped == None
    ensures res.1.launches == 1 && (h.isRunning ==> res.1.launches == h.launches)
    ensures !res.1.receiverGone && res.1.result == h.result
    ensures res.0.Ready? <==> h.channel != [] || (workerFirst && (!h.isRunning || h.worker.Some?))
    ensures res.0.Ready? ==> res.0.value == h.result
    ensures res.1.readies == h.readies + (if res.0.Ready? then 1 else 0)
    ensures !workerFirst ==> res.1.worker == (if h.isRunning then h.worker else h.wrapped)
    ensures !workerFirst && h.isRunning ==>
      h.channel == (if res.0.Ready? then [res.0.value] + res.1.channel else res.1.channel)
  {
    var started := if h.isRunning then h else Run(h);
    var delivered := if workerFirst && started.worker.Some? then Deliver(started) else started;
    TryRecv(delivered)
  }
}
