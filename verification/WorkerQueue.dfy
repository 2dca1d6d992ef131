/**
 `webserver.cc`: one net thread that checks the backlog and then pushes, in two critical
 sections, while any number of workers pop.
 */
module WorkerQueue {
  import opened Wrappers
  import opened MessageQueue

  /** The default capacity of `ThreadSafeDeque`, which `recv_queue_` keeps. */
  const MAX_SIZE: nat := 10240

  /** `checked` is the packet whose backlog check passed and whose push is still to come. */
  datatype System<T> = System(
    queue: Queue<T>, checked: Option<T>, accepted: seq<T>, dropped: seq<T>)

  function Start<T>(): System<T> {
    System(Empty(), None, [], [])
  }

  datatype Action<T> =
    | Check(packet: T)
    | PushChecked(woke: Option<Consumer>)
    | Other(event: Event<T>)

  /** `HandleApplicationPacket` is the only pusher, so the other events are consumers and `Terminate`. */
  predicate Possible<T>(s: System<T>, a: Action<T>) {
    match a
    case Check(p) => s.checked.None?
    case PushChecked(woke) => s.checked.Some? && Enabled(s.queue, MAX_SIZE, Push(s.checked.value, woke))
    case Other(e) => !e.Push? && Enabled(s.queue, MAX_SIZE, e)
  }

  /** A push that the queue refuses is not noticed: its result is not looked at. */
  function Act<T>(s: System<T>, maxBacklog: nat, a: Action<T>): System<T>
    requires Possible(s, a)
  {
    match a
    case Check(p) =>
      if |s.queue.items| >= maxBacklog then s.(dropped := s.dropped + [p]) else s.(checked := Some(p))
    case PushChecked(woke) =>
      System(Next(s.queue, MAX_SIZE, Push(s.checked.value, woke)), None, s.accepted + [s.checked.value], s.dropped)
    case Other(e) => s.(queue := Next(s.queue, MAX_SIZE, e))
  }

  ghost predicate Runs<T>(s: System<T>, maxBacklog: nat, actions: seq<Action<T>>, s': System<T>)
    decreases |actions|
  {
    if actions == [] then s == s'
    else Possible(s, actions[0]) && Runs(Act(s, maxBacklog, actions[0]), maxBacklog, actions[1..], s')
  }

  /** The bound survives the gap between check and push because nobody else pushes. */
  ghost predicate Bounded<T>(s: System<T>, maxBacklog: nat) {
    && Invariant(s.queue)
    && |s.queue.items| <= maxBacklog
    && (s.checked.Some? ==> |s.queue.items| < maxBacklog)
    && (maxBacklog <= MAX_SIZE + 1 ==> s.queue.pushed == s.accepted)
  }

  lemma ActKeepsBound<T>(s: System<T>, maxBacklog: nat, a: Action<T>)
    requires Bounded(s, maxBacklog) && Possible(s, a)
    ensures Bounded(Act(s, maxBacklog, a), maxBacklog)
  {
    match a
    case Check(p) =>
    case PushChecked(woke) =>
      StepKeepsInvariant(s.queue, MAX_SIZE, Push(s.checked.value, woke));
    case Other(e) =>
      StepKeepsInvariant(s.queue, MAX_SIZE, e);
  }

  /** Over every run the backlog bound holds, and what was accepted is what was popped and what waits. */
  lemma {:induction false} BacklogOverRuns<T>(s: System<T>, maxBacklog: nat, actions: seq<Action<T>>, s': System<T>)
    requires Bounded(s, maxBacklog) && Runs(s, maxBacklog, actions, s')
    ensures |s'.queue.items| <= maxBacklog
    ensures maxBacklog <= MAX_SIZE + 1 ==> s'.accepted == s'.queue.popped + s'.queue.items
    decreases |actions|
  {
    if actions != [] {
      ActKeepsBound(s, maxBacklog, actions[0]);
      BacklogOverRuns(Act(s, maxBacklog, actions[0]), maxBacklog, actions[1..], s');
    }
  }

  /** The packets the workers get over a run, in the order they get them. */
  ghost function Worked<T>(s: System<T>, maxBacklog: nat, actions: seq<Action<T>>, s': System<T>): seq<T>
    requires Runs(s, maxBacklog, actions, s')
    decreases |actions|
  {
    if actions == [] then []
    else
      var a := actions[0];
      (if a.Other? then AsSeq(HandedOut(s.queue, a.event)) else [])
      + Worked(Act(s, maxBacklog, a), maxBacklog, actions[1..], s')
  }

  lemma {:induction false} WorkedIsPopped<T>(s: System<T>, maxBacklog: nat, actions: seq<Action<T>>, s': System<T>)
    requires Runs(s, maxBacklog, actions, s')
    ensures s'.queue.popped == s.queue.popped + Worked(s, maxBacklog, actions, s')
    decreases |actions|
  {
    hide Next, HandedOut, TakenIn, Enabled;
    if actions != [] {
      var a := actions[0];
      WorkedIsPopped(Act(s, maxBacklog, a), maxBacklog, actions[1..], s');
      if a.Other? {
        StepConserves(s.queue, MAX_SIZE, a.event);
      } else if a.PushChecked? {
        StepConserves(s.queue, MAX_SIZE, Push(s.checked.value, a.woke));
        NothingOut(s.queue, s.checked.value, a.woke);
      }
    }
  }

  lemma NothingOut<T>(q: Queue<T>, v: T, woke: Option<Consumer>)
    ensures HandedOut(q, Push(v, woke)) == None
  {
  }

  /** From the start, up to the limit: the workers get every accepted packet that no longer waits, once and in order. */
  lemma WorkersGetAll<T>(maxBacklog: nat, actions: seq<Action<T>>, s: System<T>)
    requires maxBacklog <= 10241 && Runs(Start(), maxBacklog, actions, s)
    ensures s.accepted == Worked(Start(), maxBacklog, actions, s) + s.queue.items
    ensures |s.queue.items| <= maxBacklog
  {
    BacklogOverRuns(Start(), maxBacklog, actions, s);
    WorkedIsPopped(Start(), maxBacklog, actions, s);
  }

  /** The packets that arrive over a run. */
  function Arrived<T>(actions: seq<Action<T>>): multiset<T> {
    if actions == [] then multiset{}
    else (if actions[0].Check? then multiset{actions[0].packet} else multiset{}) + Arrived(actions[1..])
  }

  /** Where the packets of a system are: accepted, dropped, or between check and push. */
  function Known<T>(s: System<T>): multiset<T> {
    multiset(s.accepted) + multiset(s.dropped) + multiset(AsSeq(s.checked))
  }

  /** Over every run each packet that arrives is accepted, dropped, or about to be pushed. */
  lemma {:induction false} ArrivedAreKnown<T>(s: System<T>, maxBacklog: nat, actions: seq<Action<T>>, s': System<T>)
    requires Runs(s, maxBacklog, actions, s')
    ensures Known(s') == Known(s) + Arrived(actions)
    decreases |actions|
  {
    hide Next, Enabled;
    if actions != [] {
      var a := actions[0];
      var n := Act(s, maxBacklog, a);
      ArrivedAreKnown(n, maxBacklog, actions[1..], s');
      match a
      case Check(p) =>
        assert multiset(s.dropped + [p]) == multiset(s.dropped) + multiset{p};
      case PushChecked(woke) =>
        assert multiset(s.accepted + [s.checked.value]) == multiset(s.accepted) + multiset{s.checked.value};
      case Other(e) =>
    }
  }

  /** A packet is dropped exactly when the backlog is full at its check. */
  lemma DroppedIff<T>(s: System<T>, maxBacklog: nat, p: T)
    requires s.checked == None
    ensures var n := Act(s, maxBacklog, Check(p));
            && (|s.queue.items| >= maxBacklog ==> n.dropped == s.dropped + [p] && n.checked == None)
            && (|s.queue.items| < maxBacklog ==> n.dropped == s.dropped && n.checked == Some(p))
            && n.queue == s.queue && n.accepted == s.accepted
  {
  }

  /** A run loses a packet when one was accepted that is neither popped nor waiting. */
  ghost predicate LosesNothing<T(!new)>(maxBacklog: nat) {
    forall actions: seq<Action<T>>, s: System<T> :: Runs(Start(), maxBacklog, actions, s) ==>
      s.accepted == s.queue.popped + s.queue.items
  }

  function Fill<T>(p: T, n: nat): seq<Action<T>> {
    if n == 0 then [] else [Check(p), PushChecked(None)] + Fill(p, n - 1)
  }

  /** With nobody popping, n packets are accepted and all of them wait. */
  lemma {:induction false} Filling<T>(p: T, n: nat, s: System<T>, maxBacklog: nat) returns (s': System<T>)
    requires s.checked.None? && s.queue.asleep == {} && |s.queue.items| + n <= MAX_SIZE + 1
    requires |s.queue.items| + n <= maxBacklog && s.accepted == s.queue.items && s.queue.popped == []
    ensures Runs(s, maxBacklog, Fill(p, n), s')
    ensures s'.checked.None? && s'.queue.asleep == {} && |s'.queue.items| == |s.queue.items| + n
    ensures s'.accepted == s'.queue.items && s'.queue.popped == []
    decreases n
  {
    if n == 0 {
      s' := s;
    } else {
      var a, b := Check(p), PushChecked(None);
      var s1 := Act(s, maxBacklog, a);
      var s2 := Act(s1, maxBacklog, b);
      s' := Filling(p, n - 1, s2, maxBacklog);
      var rest := Fill(p, n - 1);
      assert Fill(p, n)[0] == a && Fill(p, n)[1..] == [b] + rest && ([b] + rest)[1..] == rest;
      assert Runs(s1, maxBacklog, [b] + rest, s');
    }
  }

  lemma {:induction false} RunsConcat<T>(
      s: System<T>, maxBacklog: nat, xs: seq<Action<T>>, m: System<T>, ys: seq<Action<T>>, s': System<T>)
    requires Runs(s, maxBacklog, xs, m) && Runs(m, maxBacklog, ys, s')
    ensures Runs(s, maxBacklog, xs + ys, s')
    decreases |xs|
  {
    if xs == [] {
      assert xs + ys == ys;
    } else {
      assert (xs + ys)[1..] == xs[1..] + ys;
      RunsConcat(Act(s, maxBacklog, xs[0]), maxBacklog, xs[1..], m, ys, s');
    }
  }

  /** No accepted packet is ever lost exactly when the backlog limit fits the queue's own limit. */
  lemma LosesNothingIff<T(!new)>(p: T, maxBacklog: nat)
    ensures LosesNothing<T>(maxBacklog) <==> maxBacklog <= 10241
  {
    if maxBacklog <= MAX_SIZE + 1 {
      forall actions: seq<Action<T>>, s: System<T> | Runs(Start(), maxBacklog, actions, s)
        ensures s.accepted == s.queue.popped + s.queue.items
      {
        BacklogOverRuns(Start(), maxBacklog, actions, s);
      }
    } else {
      var full := Filling(p, MAX_SIZE + 1, Start(), maxBacklog);
      var lost := Act(Act(full, maxBacklog, Check(p)), maxBacklog, PushChecked(None));
      var last := [Check(p), PushChecked(None)];
      assert last[1..] == [PushChecked(None)] && last[1..][1..] == [];
      assert Runs(full, maxBacklog, last, lost);
      RunsConcat(Start(), maxBacklog, Fill(p, MAX_SIZE + 1), full, last, lost);
      assert Runs(Start(), maxBacklog, Fill(p, MAX_SIZE + 1) + last, lost);
      assert |lost.accepted| == |lost.queue.popped + lost.queue.items| + 1;
    }
  }
}
