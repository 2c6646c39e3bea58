/** Runs of a handle: any interleaving of polls, worker sends and the drop of
    the handle, and what such a run can and cannot produce. */
module Traces {
  import opened Lifecycle

  /** The things that can happen to a handle after it has been created. */
  datatype Event =
    | PollEvent(workerFirst: bool)  // the executor calls `poll`
    | SendEvent                     // the worker finishes and calls `send`
    | DropEvent                     // the handle is dropped

  /** Whether the event can happen now: nothing can poll or drop a handle
      that has been dropped, and only a worker still holding its closure can
      send. */
  predicate Enabled<T>(h: Handle<T>, e: Event) {
    match e
    case PollEvent(_) => !h.receiverGone
    case SendEvent => h.worker.Some?
    case DropEvent => !h.receiverGone
  }

  /** One event: the answer a poll gives (none for the other events) and the
      next state. */
  function Step<T>(h: Handle<T>, e: Event): (res: (seq<PollResult<T>>, Handle<T>))
    requires Inv(h) && Enabled(h, e)
    ensures Inv(res.1) && res.1.result == h.result
    ensures |res.0| == (if e.PollEvent? then 1 else 0)
    ensures forall k :: 0 <= k < |res.0| && res.0[k].Ready? ==> res.0[k].value == h.result
  {
    match e
    case PollEvent(workerFirst) =>
      var p := Poll(h, workerFirst);
      ([p.0], p.1)
    case SendEvent => ([], Deliver(h))
    case DropEvent => ([], Drop(h))
  }

  /** Every event of the run is enabled when it happens. */
  ghost predicate Admissible<T>(h: Handle<T>, evs: seq<Event>)
    requires Inv(h)
    decreases |evs|
  {
    evs == [] || (Enabled(h, evs[0]) && Admissible(Step(h, evs[0]).1, evs[1..]))
  }

  function CountPolls(evs: seq<Event>): (n: nat)
    ensures n <= |evs|
  {
    if evs == [] then 0 else (if evs[0].PollEvent? then 1 else 0) + CountPolls(evs[1..])
  }

  /** A run: the answers of its polls, in order, and the final state. */
  function Exec<T>(h: Handle<T>, evs: seq<Event>): (res: (seq<PollResult<T>>, Handle<T>))
    requires Inv(h) && Admissible(h, evs)
    ensures Inv(res.1) && res.1.result == h.result
    ensures |res.0| == CountPolls(evs)
    decreases |evs|
  {
    if evs == [] then ([], h)
    else
      var s := Step(h, evs[0]);
      var rest := Exec(s.1, evs[1..]);
      (s.0 + rest.0, rest.1)
  }

  function CountReady<T>(outs: seq<PollResult<T>>): (n: nat)
    ensures n <= |outs|
  {
    if outs == [] then 0 else (if outs[0].Ready? then 1 else 0) + CountReady(outs[1..])
  }

  lemma {:induction false} CountReadyAppend<T>(a: seq<PollResult<T>>, b: seq<PollResult<T>>)
    ensures CountReady(a + b) == CountReady(a) + CountReady(b)
  {
    if a == [] {
      assert a + b == b;
    } else {
      assert (a + b)[1..] == a[1..] + b;
      CountReadyAppend(a[1..], b);
    }
  }

  /** With at most one `Ready` in a sequence of answers, every answer after a
      `Ready` is `Pending`. */
  lemma {:induction false} AtMostOneReady<T>(outs: seq<PollResult<T>>)
    requires CountReady(outs) <= 1
    ensures forall i, j :: 0 <= i < j < |outs| && outs[i].Ready? ==> outs[j].Pending?
  {
    if outs != [] {
      AtMostOneReady(outs[1..]);
      if outs[0].Ready? {
        NoReady(outs[1..]);
      }
      forall i, j | 0 <= i < j < |outs| && outs[i].Ready?
        ensures outs[j].Pending?
      {
        if i > 0 {
          assert outs[1..][i - 1] == outs[i] && outs[1..][j - 1] == outs[j];
        } else {
          assert outs[1..][j - 1] == outs[j];
        }
      }
    }
  }

  lemma {:induction false} NoReady<T>(outs: seq<PollResult<T>>)
    requires CountReady(outs) == 0
    ensures forall i :: 0 <= i < |outs| ==> outs[i].Pending?
  {
    if outs != [] {
      NoReady(outs[1..]);
      assert forall i :: 1 <= i < |outs| ==> outs[i] == outs[1..][i - 1];
    }
  }

  /** The flag only ever goes from false to true, the emptied closure slot is
      never refilled, and a dropped receiver stays dropped. */
  lemma {:induction false} RunningIsMonotone<T>(h: Handle<T>, evs: seq<Event>)
    requires Inv(h) && Admissible(h, evs)
    ensures h.isRunning ==> Exec(h, evs).1.isRunning
    ensures h.wrapped.None? ==> Exec(h, evs).1.wrapped.None?
    ensures h.receiverGone ==> Exec(h, evs).1.receiverGone
    decreases |evs|
  {
    if evs != [] {
      RunningIsMonotone(Step(h, evs[0]).1, evs[1..]);
    }
  }

  /** However many polls a run holds, at most one worker is ever spawned; a
      running handle spawns no more, and the first poll spawns the one.
      The bound itself is part of `Inv`, which every step keeps because
      `Poll` calls `Run` only when the flag is clear and `Run` needs a filled
      slot (so the `unwrap` of `run` never meets an empty slot); the
      induction proves the other two clauses. */
  lemma {:induction false} LaunchAtMostOnce<T>(h: Handle<T>, evs: seq<Event>)
    requires Inv(h) && Admissible(h, evs)
    ensures Exec(h, evs).1.launches <= 1
    ensures h.isRunning ==> Exec(h, evs).1.launches == h.launches
    ensures CountPolls(evs) > 0 ==> Exec(h, evs).1.launches == 1 && Exec(h, evs).1.wrapped == None
    decreases |evs|
  {
    RunningIsMonotone(h, evs);
    if evs != [] {
      var s := Step(h, evs[0]);
      LaunchAtMostOnce(s.1, evs[1..]);
      RunningIsMonotone(s.1, evs[1..]);
    }
  }

  /** Without a poll nothing is started: a lazily wrapped handle spawns no
      worker until it is first polled. */
  lemma {:induction false} NoPollNoLaunch<T>(h: Handle<T>, evs: seq<Event>)
    requires Inv(h) && Admissible(h, evs) && CountPolls(evs) == 0
    ensures Exec(h, evs).1.isRunning == h.isRunning
    ensures Exec(h, evs).1.wrapped == h.wrapped
    ensures Exec(h, evs).1.launches == h.launches
    decreases |evs|
  {
    if evs != [] {
      NoPollNoLaunch(Step(h, evs[0]).1, evs[1..]);
    }
  }

  /** Each `Ready` answer of a run is one received value: the count of
      `Ready` answers over the handle's whole life never exceeds one. */
  lemma {:induction false} ReadyAtMostOnce<T>(h: Handle<T>, evs: seq<Event>)
    requires Inv(h) && Admissible(h, evs)
    ensures Exec(h, evs).1.readies == h.readies + CountReady(Exec(h, evs).0)
    ensures h.readies + CountReady(Exec(h, evs).0) <= 1
    decreases |evs|
  {
    if evs != [] {
      var s := Step(h, evs[0]);
      ReadyAtMostOnce(s.1, evs[1..]);
      CountReadyAppend(s.0, Exec(s.1, evs[1..]).0);
      if evs[0].PollEvent? {
        assert s.0[1..] == [];
      }
    }
  }

  /** Once a poll has answered `Ready`, every later poll answers `Pending`,
      within a run and across runs. */
  lemma {:induction false} ReadyIsFinal<T>(h: Handle<T>, evs: seq<Event>)
    requires Inv(h) && Admissible(h, evs)
    ensures var outs := Exec(h, evs).0;
      forall i, j :: 0 <= i < j < |outs| && outs[i].Ready? ==> outs[j].Pending?
    ensures h.readies > 0 ==> forall i :: 0 <= i < |Exec(h, evs).0| ==> Exec(h, evs).0[i].Pending?
  {
    ReadyAtMostOnce(h, evs);
    AtMostOneReady(Exec(h, evs).0);
    if h.readies > 0 {
      NoReady(Exec(h, evs).0);
    }
  }

  /** Every `Ready` carries the value the wrapped closure returns. */
  lemma {:induction false} ReadyCarriesResult<T>(h: Handle<T>, evs: seq<Event>)
    requires Inv(h) && Admissible(h, evs)
    ensures forall i :: 0 <= i < |Exec(h, evs).0| && Exec(h, evs).0[i].Ready? ==>
      Exec(h, evs).0[i].value == h.result
    decreases |evs|
  {
    if evs != [] {
      var s := Step(h, evs[0]);
      var rest := Exec(s.1, evs[1..]);
      ReadyCarriesResult(s.1, evs[1..]);
      var outs := s.0 + rest.0;
      forall i | 0 <= i < |outs| && outs[i].Ready?
        ensures outs[i].value == h.result
      {
        if i >= |s.0| {
          assert outs[i] == rest.0[i - |s.0|];
        } else {
          assert outs[i] == s.0[i];
        }
      }
    }
  }

  /** A live handle whose worker has yet to send and that has not answered
      `Ready`: once the worker sends, the next poll answers `Ready` with the
      closure's value and the poll after it `Pending`, whichever way the
      scheduler interleaves the worker. */
  lemma ReadyAfterSend<T>(h: Handle<T>, b: bool, c: bool)
    requires Inv(h) && !h.receiverGone && h.worker.Some? && h.readies == 0
    ensures Admissible(h, [SendEvent, PollEvent(b), PollEvent(c)])
    ensures Exec(h, [SendEvent, PollEvent(b), PollEvent(c)]).0 == [Ready(h.result), Pending]
  {
    var evs := [SendEvent, PollEvent(b), PollEvent(c)];
    var h1 := Deliver(h);
    var p2 := Poll(h1, b);
    var p3 := Poll(p2.1, c);
    assert evs[1..] == [PollEvent(b), PollEvent(c)] && evs[1..][1..] == [PollEvent(c)];
    assert [PollEvent(c)][1..] == [];
    assert Admissible(p3.1, []);
    assert Admissible(p2.1, [PollEvent(c)]);
    assert Admissible(h1, [PollEvent(b), PollEvent(c)]);
    assert Exec(p2.1, [PollEvent(c)]).0 == [Pending];
    assert Exec(h1, [PollEvent(b), PollEvent(c)]).0 == [Ready(h.result), Pending];
  }

  /** A live handle whose worker has sent and that has not answered `Ready`
      yet answers `Ready` with the closure's value on the next poll. */
  lemma ReadyOnceSent<T>(h: Handle<T>, workerFirst: bool)
    requires Inv(h) && !h.receiverGone && h.isRunning && h.worker == None && h.readies == 0
    ensures Poll(h, workerFirst).0 == Ready(h.result)
  {
  }
}
