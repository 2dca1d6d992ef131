/**
 `utils/messagequeue.h`: a deque under a mutex with a condition variable. A step is one critical
 section: from taking the lock to giving it up, by returning or by going to sleep.
 */
module MessageQueue {
  import opened Wrappers

  type Consumer = nat

  /**
   `asleep` are the callers of `pop_front_to` blocked in the wait, `woken` those released by a
   notification or spuriously that have not run yet. `pushed` and `popped` are the history.
   */
  datatype Queue<T> = Queue(
    items: seq<T>, terminated: bool, asleep: set<Consumer>, woken: set<Consumer>,
    pushed: seq<T>, popped: seq<T>)

  function Empty<T>(): Queue<T> {
    Queue([], false, {}, {}, [], [])
  }

  datatype Event<T> =
    | Push(value: T, woke: Option<Consumer>)
    | Enter(who: Consumer)
    | Resume(who: Consumer)
    | Spurious(who: Consumer)
    | Once(who: Consumer)
    | TimeOut(who: Consumer)
    | Terminate

  /** The body of `pop_front_to` with the lock held and c neither asleep nor woken. */
  function Poll<T>(q: Queue<T>, c: Consumer): Queue<T> {
    if |q.items| == 0 && !q.terminated then q.(asleep := q.asleep + {c})
    else if |q.items| == 0 || q.terminated then q
    else q.(items := q.items[1..], popped := q.popped + [q.items[0]])
  }

  /** The same without a wait: the caller asked not to wait, or its time is up. */
  function Grab<T>(q: Queue<T>): Queue<T> {
    if |q.items| == 0 || q.terminated then q
    else q.(items := q.items[1..], popped := q.popped + [q.items[0]])
  }

  /** `notify_one` releases some sleeper if there is one. */
  predicate Notifies<T>(q: Queue<T>, woke: Option<Consumer>) {
    match woke
    case None => q.asleep == {}
    case Some(c) => c in q.asleep
  }

  function Wake<T>(q: Queue<T>, woke: Option<Consumer>): Queue<T> {
    match woke
    case None => q
    case Some(c) => q.(asleep := q.asleep - {c}, woken := q.woken + {c})
  }

  predicate Enabled<T>(q: Queue<T>, maxSize: nat, e: Event<T>) {
    match e
    case Push(v, woke) => |q.items| <= maxSize ==> Notifies(q, woke)
    case Enter(c) => c !in q.asleep && c !in q.woken
    case Resume(c) => c in q.woken
    case Spurious(c) => c in q.asleep
    case Once(c) => c !in q.asleep && c !in q.woken
    case TimeOut(c) => c in q.asleep || c in q.woken
    case Terminate => true
  }

  function Next<T>(q: Queue<T>, maxSize: nat, e: Event<T>): Queue<T> {
    match e
    case Push(v, woke) =>
      if |q.items| > maxSize then q
      else Wake(q.(items := q.items + [v], pushed := q.pushed + [v]), woke)
    case Enter(c) => Poll(q, c)
    case Resume(c) => Poll(q.(woken := q.woken - {c}), c)
    case Spurious(c) => Wake(q, Some(c))
    case Once(c) => Grab(q)
    case TimeOut(c) => Grab(q.(asleep := q.asleep - {c}, woken := q.woken - {c}))
    case Terminate => q.(terminated := true, asleep := {}, woken := q.woken + q.asleep)
  }

  /** Every run: each event in turn, as long as it can happen. */
  ghost predicate Reaches<T>(q: Queue<T>, maxSize: nat, events: seq<Event<T>>, q': Queue<T>)
    decreases |events|
  {
    if events == [] then q == q'
    else Enabled(q, maxSize, events[0]) && Reaches(Next(q, maxSize, events[0]), maxSize, events[1..], q')
  }

  // -- What goes in and what comes out --

  function AsSeq<T>(o: Option<T>): seq<T> { if o.Some? then [o.value] else [] }

  /** The item an event hands to the consumer it is about. */
  function HandedOut<T>(q: Queue<T>, e: Event<T>): Option<T> {
    if e.Push? || e.Spurious? || e.Terminate? || q.terminated || q.items == [] then None else Some(q.items[0])
  }

  /** The item an event adds. */
  function TakenIn<T>(q: Queue<T>, maxSize: nat, e: Event<T>): Option<T> {
    if e.Push? && |q.items| <= maxSize then Some(e.value) else None
  }

  ghost function AllHandedOut<T>(q: Queue<T>, maxSize: nat, events: seq<Event<T>>): seq<T>
    decreases |events|
  {
    if events == [] then []
    else AsSeq(HandedOut(q, events[0])) + AllHandedOut(Next(q, maxSize, events[0]), maxSize, events[1..])
  }

  ghost function AllTakenIn<T>(q: Queue<T>, maxSize: nat, events: seq<Event<T>>): seq<T>
    decreases |events|
  {
    if events == [] then []
    else AsSeq(TakenIn(q, maxSize, events[0])) + AllTakenIn(Next(q, maxSize, events[0]), maxSize, events[1..])
  }

  /** One step: what was there and what goes in is what comes out and what is left; the history records it. */
  lemma StepConserves<T>(q: Queue<T>, maxSize: nat, e: Event<T>)
    requires Enabled(q, maxSize, e)
    ensures q.items + AsSeq(TakenIn(q, maxSize, e)) == AsSeq(HandedOut(q, e)) + Next(q, maxSize, e).items
    ensures Next(q, maxSize, e).pushed == q.pushed + AsSeq(TakenIn(q, maxSize, e))
    ensures Next(q, maxSize, e).popped == q.popped + AsSeq(HandedOut(q, e))
  {
    match e
    case Push(v, woke) =>
    case Enter(c) =>
    case Resume(c) =>
    case Spurious(c) =>
    case Once(c) =>
    case TimeOut(c) =>
    case Terminate =>
  }

  /** Over every run, in order: all that goes in is all that is handed out, each once, and what is left. */
  lemma {:induction false} RunConserves<T>(q: Queue<T>, maxSize: nat, events: seq<Event<T>>, q': Queue<T>)
    requires Reaches(q, maxSize, events, q')
    ensures q.items + AllTakenIn(q, maxSize, events) == AllHandedOut(q, maxSize, events) + q'.items
    ensures q'.popped == q.popped + AllHandedOut(q, maxSize, events)
    decreases |events|
  {
    hide Next, HandedOut, TakenIn, Enabled, AsSeq;
    if events != [] {
      var e := events[0];
      var n := Next(q, maxSize, e);
      StepConserves(q, maxSize, e);
      RunConserves(n, maxSize, events[1..], q');
      var i, o := AsSeq(TakenIn(q, maxSize, e)), AsSeq(HandedOut(q, e));
      var ins, outs := AllTakenIn(n, maxSize, events[1..]), AllHandedOut(n, maxSize, events[1..]);
      calc {
        q.items + (i + ins);
        (q.items + i) + ins;
        (o + n.items) + ins;
        o + (n.items + ins);
        o + (outs + q'.items);
        (o + outs) + q'.items;
      }
    }
  }

  /** The consumers inside a waiting call. */
  function Waiting<T>(q: Queue<T>): set<Consumer> { q.asleep + q.woken }

  /** Nobody is forgotten: a consumer leaves the wait only by its own return, and enters it only to find nothing. */
  lemma WaitersKept<T>(q: Queue<T>, maxSize: nat, e: Event<T>)
    requires Enabled(q, maxSize, e) && q.asleep !! q.woken
    ensures var empty := q.items == [] && !q.terminated;
            var after := match e
                         case Enter(c) => Waiting(q) + if empty then {c} else {}
                         case Resume(c) => if empty then Waiting(q) else Waiting(q) - {c}
                         case TimeOut(c) => Waiting(q) - {c}
                         case _ => Waiting(q);
            Waiting(Next(q, maxSize, e)) == after
  {
    match e
    case Push(v, woke) =>
    case Enter(c) =>
    case Resume(c) =>
      assert Waiting(q) == (q.asleep + {c}) + (q.woken - {c});
    case Spurious(c) =>
    case Once(c) =>
    case TimeOut(c) =>
    case Terminate =>
  }

  /** No item waits beside a sleeper unless a woken consumer is on its way to it. */
  ghost predicate NoLostWakeup<T>(q: Queue<T>) {
    q.asleep != {} && !q.terminated ==> |q.items| <= |q.woken|
  }

  ghost predicate Invariant<T>(q: Queue<T>) {
    && q.asleep !! q.woken
    && (q.terminated ==> q.asleep == {})
    && NoLostWakeup(q)
    && q.pushed == q.popped + q.items
  }

  lemma PollKeepsInvariant<T>(q: Queue<T>, c: Consumer)
    requires c !in q.asleep && c !in q.woken && q.asleep !! q.woken
    requires q.terminated ==> q.asleep == {}
    requires q.asleep != {} && !q.terminated ==> |q.items| <= |q.woken| + 1
    requires q.pushed == q.popped + q.items
    ensures Invariant(Poll(q, c))
  {
  }

  lemma PushKeepsInvariant<T>(q: Queue<T>, v: T, woke: Option<Consumer>)
    requires Invariant(q) && Notifies(q, woke)
    ensures Invariant(Wake(q.(items := q.items + [v], pushed := q.pushed + [v]), woke))
  {
    assert q.popped + (q.items + [v]) == q.popped + q.items + [v];
    if woke.Some? {
      assert |q.woken + {woke.value}| == |q.woken| + 1;
    }
  }

  lemma SpuriousKeepsInvariant<T>(q: Queue<T>, c: Consumer)
    requires Invariant(q) && c in q.asleep
    ensures Invariant(Wake(q, Some(c)))
  {
    assert |q.woken + {c}| == |q.woken| + 1;
  }

  lemma GrabKeepsInvariant<T>(q: Queue<T>)
    requires Invariant(q)
    ensures Invariant(Grab(q))
  {
  }

  lemma TimeOutKeepsInvariant<T>(q: Queue<T>, c: Consumer)
    requires Invariant(q) && (c in q.asleep || c in q.woken)
    ensures Invariant(Grab(q.(asleep := q.asleep - {c}, woken := q.woken - {c})))
  {
    if c in q.woken {
      assert |q.woken - {c}| == |q.woken| - 1;
    } else {
      assert q.woken - {c} == q.woken;
    }
  }

  /** Every event keeps the invariant. */
  lemma StepKeepsInvariant<T>(q: Queue<T>, maxSize: nat, e: Event<T>)
    requires Invariant(q) && Enabled(q, maxSize, e)
    ensures Invariant(Next(q, maxSize, e))
  {
    hide Wake, Poll, Grab;
    match e
    case Push(v, woke) =>
      if |q.items| <= maxSize { PushKeepsInvariant(q, v, woke); }
    case Enter(c) =>
      PollKeepsInvariant(q, c);
    case Resume(c) =>
      assert |q.woken - {c}| == |q.woken| - 1;
      PollKeepsInvariant(q.(woken := q.woken - {c}), c);
    case Spurious(c) =>
      SpuriousKeepsInvariant(q, c);
    case Once(c) =>
      GrabKeepsInvariant(q);
    case TimeOut(c) =>
      TimeOutKeepsInvariant(q, c);
    case Terminate =>
  }

  /** Over every run: no lost wake-up, first in first out, and after `Terminate` nobody sleeps. */
  lemma {:induction false} InvariantOverRuns<T>(q: Queue<T>, maxSize: nat, events: seq<Event<T>>, q': Queue<T>)
    requires Invariant(q) && Reaches(q, maxSize, events, q')
    ensures Invariant(q')
    decreases |events|
  {
    if events != [] {
      StepKeepsInvariant(q, maxSize, events[0]);
      InvariantOverRuns(Next(q, maxSize, events[0]), maxSize, events[1..], q');
    }
  }

  /** Once terminated, no run pops anything or puts anybody to sleep. */
  lemma {:induction false} NothingAfterTerminate<T>(q: Queue<T>, maxSize: nat, events: seq<Event<T>>, q': Queue<T>)
    requires Invariant(q) && q.terminated && Reaches(q, maxSize, events, q')
    ensures q'.terminated && q'.asleep == {} && q'.popped == q.popped
    decreases |events|
  {
    if events != [] {
      var n := Next(q, maxSize, events[0]);
      StepKeepsInvariant(q, maxSize, events[0]);
      assert n.terminated && n.popped == q.popped;
      NothingAfterTerminate(n, maxSize, events[1..], q');
    }
  }

  /** When every released consumer has run, a sleeper means there is nothing to pop. */
  lemma SleepersMeanEmpty<T>(maxSize: nat, events: seq<Event<T>>, q: Queue<T>)
    requires Reaches(Empty(), maxSize, events, q)
    ensures q.woken == {} && q.asleep != {} ==> q.items == []
    ensures q.pushed == q.popped + q.items
  {
    InvariantOverRuns(Empty(), maxSize, events, q);
  }

  /** The deque itself. */
  class ThreadSafeDeque<T> {
    const maxSize: nat
    var container: seq<T>
    var terminated: bool
    var asleep: set<Consumer>
    var woken: set<Consumer>
    ghost var pushed: seq<T>
    ghost var popped: seq<T>

    ghost function View(): Queue<T>
      reads this
    {
      Queue(container, terminated, asleep, woken, pushed, popped)
    }

    constructor (maxSize: nat)
      ensures this.maxSize == maxSize && View() == Empty() && Invariant(View())
    {
      this.maxSize := maxSize;
      container, terminated, asleep, woken := [], false, {}, {};
      pushed, popped := [], [];
    }

    /** `push_back` with `_notify`. Which sleeper is released is not determined. */
    method PushBack(v: T) returns (ok: bool, ghost woke: Option<Consumer>)
      requires Invariant(View())
      modifies this
      ensures Enabled(old(View()), maxSize, Push(v, woke))
      ensures View() == Next(old(View()), maxSize, Push(v, woke)) && Invariant(View())
      ensures ok == TakenIn(old(View()), maxSize, Push(v, woke)).Some?
    {
      woke := None;
      if |container| > maxSize {
        return false, None;
      }
      ghost var before := View();
      container := container + [v];
      pushed := pushed + [v];
      if asleep != {} {
        var c :| c in asleep;
        asleep, woken := asleep - {c}, woken + {c};
        woke := Some(c);
      }
      StepKeepsInvariant(before, maxSize, Push(v, woke));
      return true, woke;
    }

    /** `pop_front_to` up to its return or its wait; `who` has the lock and is not waiting. */
    method TryPop(who: Consumer) returns (r: Option<T>)
      requires who !in asleep && who !in woken
      modifies this`container, this`asleep, this`popped
      ensures View() == Poll(old(View()), who)
      ensures r == if |old(container)| > 0 && !terminated then Some(old(container)[0]) else None
    {
      if !(|container| > 0 || terminated) {
        asleep := asleep + {who};
        return None;
      }
      r := PopNow();
    }

    /** `pop_front_to`, waiting or not. */
    method PopFrontTo(who: Consumer, wait: bool) returns (r: Option<T>)
      requires Invariant(View()) && who !in asleep && who !in woken
      modifies this`container, this`asleep, this`popped
      ensures var e: Event<T> := if wait then Enter(who) else Once(who);
              View() == Next(old(View()), maxSize, e) && r == HandedOut(old(View()), e) && Invariant(View())
    {
      StepKeepsInvariant(View(), maxSize, if wait then Enter(who) else Once(who));
      if wait {
        r := TryPop(who);
      } else {
        r := PopNow();
      }
    }

    method PopNow() returns (r: Option<T>)
      modifies this`container, this`popped
      ensures View() == Grab(old(View()))
      ensures r == if |old(container)| > 0 && !terminated then Some(old(container)[0]) else None
    {
      if |container| == 0 || terminated {
        return None;
      }
      r := Some(container[0]);
      popped := popped + [container[0]];
      container := container[1..];
    }

    /** The time of a waiting consumer is up: it takes an item if there is one, and does not sleep again. */
    method GiveUp(who: Consumer) returns (r: Option<T>)
      requires Invariant(View()) && (who in asleep || who in woken)
      modifies this
      ensures View() == Next(old(View()), maxSize, TimeOut(who)) && Invariant(View())
      ensures r == HandedOut(old(View()), TimeOut(who))
    {
      StepKeepsInvariant(View(), maxSize, TimeOut(who));
      asleep, woken := asleep - {who}, woken - {who};
      r := PopNow();
    }

    /** A released consumer gets the lock back and looks again. */
    method WakeUp(who: Consumer) returns (r: Option<T>)
      requires Invariant(View()) && who in woken
      modifies this
      ensures View() == Next(old(View()), maxSize, Resume(who)) && Invariant(View())
      ensures r == HandedOut(old(View()), Resume(who))
    {
      StepKeepsInvariant(View(), maxSize, Resume(who));
      woken := woken - {who};
      r := TryPop(who);
    }

    method Terminate()
      requires Invariant(View())
      modifies this`terminated, this`asleep, this`woken
      ensures View() == Next(old(View()), maxSize, Event.Terminate) && Invariant(View())
    {
      StepKeepsInvariant(View(), maxSize, Event.Terminate);
      terminated := true;
      asleep, woken := {}, woken + asleep;
    }
  }
}
