/** The `Futurified` future of src/futures_03.rs as an object updated in
    place. Each method is proved against the function of module Lifecycle
    that it implements, through the abstract value `Snapshot()`. */
module Futures03 {
  import opened Lifecycle

  /** A future wrapping a one-shot closure that runs on its own worker.
      The closure is represented by the value it returns. The channel is the
      FIFO of values sent and not yet received; `worker` is the closure as
      moved into the spawned worker, until that worker has tried to send. */
  class Futurified<T> {
    var isRunning: bool
    var wrapped: Option<T>
    var channel: seq<T>
    var worker: Option<T>
    var receiverGone: bool
    ghost var result: T
    ghost var launches: nat
    ghost var sent: nat
    ghost var readies: nat

    ghost function Snapshot(): Handle<T>
      reads this
    {
      Handle(isRunning, wrapped, channel, worker, receiverGone, result, launches, sent, readies)
    }

    ghost predicate Valid()
      reads this
    {
      Inv(Snapshot())
    }

    /** `wrap`: store the closure; nothing runs until the first poll. */
    constructor Wrap(f: T)
      ensures Valid() && Snapshot() == Lifecycle.Wrap(f)
      ensures !isRunning && wrapped == Some(f) && channel == [] && launches == 0
      ensures result == f && !receiverGone && readies == 0
    {
      isRunning := false;
      wrapped := Some(f);
      channel := [];
      worker := None;
      receiverGone := false;
      result := f;
      launches, sent, readies := 0, 0, 0;
    }

    /** `wrap_eager`: `wrap` followed by one `run`, so the worker is spawned
        before the handle is returned. */
    constructor WrapEager(f: T)
      ensures Valid() && Snapshot() == Lifecycle.Run(Lifecycle.Wrap(f))
      ensures isRunning && wrapped == None && worker == Some(f) && launches == 1
      ensures channel == [] && result == f && !receiverGone && readies == 0
    {
      isRunning := false;
      wrapped := Some(f);
      channel := [];
      worker := None;
      receiverGone := false;
      result := f;
      launches, sent, readies := 0, 0, 0;
      new;
      Run();
    }

    /** `run`: set the flag, take the closure out of its slot (it must be
        there) and hand it to a newly spawned worker. */
    method Run()
      requires Valid() && wrapped.Some?
      modifies this
      ensures Valid() && Snapshot() == Lifecycle.Run(old(Snapshot()))
      ensures isRunning && wrapped == None && worker == old(wrapped)
      ensures launches == old(launches) + 1
    {
      isRunning := true;
      var sfn := wrapped.value;
      wrapped := None;
      worker := Some(sfn);
      launches := launches + 1;
    }

    /** The spawned worker runs its closure and sends the value; when the
        receiver is gone the send fails and the value is dropped. Nothing
        else about the handle changes. */
    method WorkerDeliver()
      requires Valid() && worker.Some?
      modifies this
      ensures Valid() && Snapshot() == Deliver(old(Snapshot()))
      ensures worker == None
      ensures channel == if receiverGone then old(channel) else old(channel) + [result]
      ensures isRunning == old(isRunning) && wrapped == old(wrapped) && readies == old(readies)
      ensures result == old(result) && receiverGone == old(receiverGone)
    {
      var value := worker.value;
      worker := None;
      if !receiverGone {
        channel := channel + [value];
        sent := sent + 1;
      }
    }

    /** `poll`: start the worker unless the flag is already set, then take a
        value from the channel without blocking. `workerFirst` says whether
        the worker, if it has yet to send, does so before the channel is
        looked at. */
    method Poll(workerFirst: bool) returns (p: PollResult<T>)
      requires Valid() && !receiverGone
      modifies this
      ensures Valid() && (p, Snapshot()) == Lifecycle.Poll(old(Snapshot()), workerFirst)
      ensures isRunning && wrapped == None && launches == 1
      ensures old(isRunning) ==> launches == old(launches)
      ensures result == old(result) && !receiverGone
      ensures p.Ready? <==> old(channel) != [] || (workerFirst && (!old(isRunning) || old(worker).Some?))
      ensures p.Ready? ==> p.value == result
      ensures readies == old(readies) + (if p.Ready? then 1 else 0)
      ensures !workerFirst && old(isRunning) ==>
        (p.Ready? <==> old(channel) != []) &&
        old(channel) == (if p.Ready? then [p.value] + channel else channel)
    {
      if !isRunning {
        Run();
      }
      if workerFirst && worker.Some? {
        WorkerDeliver();
      }
      if |channel| > 0 {
        p := Ready(channel[0]);
        channel := channel[1..];
        readies := readies + 1;
      } else {
        p := Pending;
      }
    }

    /** Dropping the handle drops the receiving end of the channel. */
    method Drop()
      requires Valid() && !receiverGone
      modifies this
      ensures Valid() && Snapshot() == Lifecycle.Drop(old(Snapshot()))
      ensures receiverGone && channel == old(channel) && worker == old(worker)
    {
      receiverGone := true;
    }
  }

  /** A lazily wrapped closure (one returning 42, say): the first poll
      starts it and finds nothing, the poll after the worker has sent gets
      the value, and the poll after that finds the channel drained. */
  method LazyScenario<T>(v: T) returns (first: PollResult<T>, second: PollResult<T>, third: PollResult<T>)
    ensures first == Pending && second == Ready(v) && third == Pending
  {
    var h := new Futurified.Wrap(v);
    first := h.Poll(false);
    h.WorkerDeliver();
    second := h.Poll(false);
    third := h.Poll(false);
  }

  /** An eagerly wrapped closure is already running before any poll: polls
      find nothing until the worker has sent, then get the value once. */
  method EagerScenario<T>(v: T) returns (first: PollResult<T>, second: PollResult<T>, third: PollResult<T>)
    ensures first == Pending && second == Ready(v) && third == Pending
  {
    var h := new Futurified.WrapEager(v);
    first := h.Poll(false);
    h.WorkerDeliver();
    second := h.Poll(false);
    third := h.Poll(false);
  }

  /** The worker started by a lazy handle's first poll may send before that
      same poll looks at the channel: the first poll is then `Ready`. */
  method RacedFirstPoll<T>(v: T) returns (first: PollResult<T>, second: PollResult<T>)
    ensures first == Ready(v) && second == Pending
  {
    var h := new Futurified.Wrap(v);
    first := h.Poll(true);
    second := h.Poll(true);
  }

  /** A handle polled once and dropped before its worker sends: the send
      fails, the value is discarded and nothing else happens. */
  method AbandonScenario<T>(v: T) returns (first: PollResult<T>, h: Futurified<T>)
    ensures first == Pending
    ensures h.Valid() && h.Snapshot() == Deliver(Lifecycle.Drop(Lifecycle.Poll(Lifecycle.Wrap(v), false).1))
    ensures h.receiverGone && h.isRunning && h.wrapped == None && h.worker == None && h.channel == []
    ensures h.result == v && h.launches == 1 && h.sent == 0 && h.readies == 0
  {
    h := new Futurified.Wrap(v);
    first := h.Poll(false);
    h.Drop();
    h.WorkerDeliver();
  }
}
