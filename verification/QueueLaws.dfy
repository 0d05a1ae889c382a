/** What the queue scheduler of os/kernel/sched/thread.c does over runs of one
    kind, told without its definition: who runs, in which order, and for how
    many ticks. */
module QueueLaws {
  import opened QueueModel

  lemma {:induction false} RunThen<T>(s: Sched<T>, es: seq<Event<T>>, e: Event<T>)
    ensures Run(s, es + [e]) == Step(Run(s, es), e)
    decreases |es|
  {
    if es == [] {
      assert Run(s, [e]) == Run(Step(s, e), []);
    } else {
      RunThen(Step(s, es[0]), es[1..], e);
      assert (es + [e])[1..] == es[1..] + [e];
    }
  }

  // ---------------------------------------------------------- exact service

  /** Only ticks and creations. */
  predicate Quiet<T>(es: seq<Event<T>>) {
    forall i :: 0 <= i < |es| ==> es[i].Tick? || es[i].Create?
  }

  /** The threads created, in order. */
  function Made<T>(es: seq<Event<T>>): seq<T>
    decreases |es|
  {
    if es == [] then [] else (if es[0].Create? then [es[0].t] else []) + Made(es[1..])
  }

  /** After `n` ticks of the running thread, with somebody waiting or not: no
      further tick is the tenth or a later one and finds somebody waiting. */
  predicate NeverDue<T>(waiting: bool, n: nat, es: seq<Event<T>>)
    decreases |es|
  {
    if es == [] then true
    else if es[0].Tick? then !(waiting && n + 1 >= 10) && NeverDue(waiting, n + 1, es[1..])
    else NeverDue(true, n, es[1..])
  }

  /** Nine ticks never are. */
  lemma {:induction false} NineTicks<T>(waiting: bool, n: nat, es: seq<Event<T>>)
    requires Quiet(es) && n + TickCount(es) <= 9
    ensures NeverDue(waiting, n, es)
    decreases |es|
  {
    if es != [] {
      NineTicks(if es[0].Tick? then waiting else true, if es[0].Tick? then n + 1 else n, es[1..]);
    }
  }

  /** Until then the running thread stays, its slice runs down from 10 to 0
      whether or not anybody waits, and new threads join the tail. */
  lemma {:induction false} Service<T>(s: Sched<T>, n: nat, es: seq<Event<T>>)
    requires Quiet(es) && s.slice == Max(10 - n, 0) && NeverDue(s.queue != [], n, es)
    ensures Run(s, es) == Sched(s.current, s.idle, s.queue + Made(es), Max(10 - n - TickCount(es), 0))
    decreases |es|
  {
    hide Step, TickCount, Made;
    FirstEvent(es);
    if es == [] {
      assert s.queue + [] == s.queue;
    } else {
      var (made, n') := (if es[0].Create? then [es[0].t] else [], if es[0].Tick? then n + 1 else n);
      QuietStep(s, n, es[0]);
      Service(Step(s, es[0]), n', es[1..]);
      assert s.queue + made + Made(es[1..]) == s.queue + (made + Made(es[1..]));
    }
  }

  lemma FirstEvent<T>(es: seq<Event<T>>)
    ensures es == [] ==> TickCount(es) == 0 && Made(es) == []
    ensures es != [] ==>
              && TickCount(es) == (if es[0].Tick? then 1 else 0) + TickCount(es[1..])
              && Made(es) == (if es[0].Create? then [es[0].t] else []) + Made(es[1..])
  {
  }

  /** One tick that is not due, or one creation. */
  lemma QuietStep<T>(s: Sched<T>, n: nat, e: Event<T>)
    requires s.slice == Max(10 - n, 0)
    requires e.Create? || (e.Tick? && !(s.queue != [] && n + 1 >= 10))
    ensures Step(s, e) == if e.Create? then s.(queue := s.queue + [e.t]) else s.(slice := Max(10 - n - 1, 0))
  {
  }

  /** The first tick that is the tenth or a later one and finds somebody waiting
      hands over: the head of the queue runs, with a slice of 10, and the old
      thread waits behind all others, unless it is idle. */
  lemma Handover<T>(s: Sched<T>, es: seq<Event<T>>)
    requires Quiet(es) && s.slice == 10 && NeverDue(s.queue != [], 0, es)
    ensures var q := s.queue + Made(es);
            Run(s, es + [Tick]) ==
            if TickCount(es) >= 9 && q != [] then
              Sched(q[0], s.idle, q[1..] + (if s.current == s.idle then [] else [s.current]), 10)
            else Sched(s.current, s.idle, q, Max(10 - TickCount(es) - 1, 0))
  {
    hide Run, Made, TickCount, NeverDue, Quiet;
    Service(s, 0, es);
    RunThen(s, es, Tick);
  }

  // -------------------------------------------------------------- the circle

  /** The running thread and those waiting behind it. */
  function Ring<T>(s: Sched<T>): seq<T> {
    [s.current] + s.queue
  }

  function Yields<T>(n: nat): seq<Event<T>> {
    seq(n, _ => Yield)
  }

  function Turned<T>(ring: seq<T>, n: nat): seq<T>
    requires n <= |ring|
  {
    ring[n..] + ring[..n]
  }

  /** Each of `n` yields turns the circle of threads by one place; after one yield
      of each, everybody is back where they were. */
  lemma {:induction false} FullCircle<T>(s: Sched<T>, n: nat)
    requires s.idle !in Ring(s) && s.queue != [] && n <= |Ring(s)|
    ensures Ring(Run(s, Yields(n))) == Turned(Ring(s), n) && Run(s, Yields(n)).idle == s.idle
    ensures n > 0 ==> Run(s, Yields(n)).slice == 10
    ensures n == |Ring(s)| ==> Ring(Run(s, Yields(n))) == Ring(s)
    decreases n
  {
    hide Step, Ring, Turned;
    if n > 0 {
      var s' := Step(s, Yield);
      OneTurn(s);
      assert Yields<T>(n)[0] == Yield && Yields<T>(n)[1..] == Yields<T>(n - 1);
      FullCircle(s', n - 1);
      TurnedAgain(Ring(s), n);
    } else {
      TurnedAgain(Ring(s), 0);
    }
    TurnedAgain(Ring(s), |Ring(s)|);
  }

  lemma OneTurn<T>(s: Sched<T>)
    requires s.idle !in Ring(s) && s.queue != []
    ensures var s' := Step(s, Yield);
            && |Ring(s')| == |Ring(s)| > 1 && Ring(s') == Turned(Ring(s), 1)
            && s'.idle == s.idle && s'.queue != [] && s'.slice == 10 && s'.idle !in Ring(s')
  {
    assert forall x :: x in Turned(Ring(s), 1) ==> x in Ring(s);
  }

  lemma TurnedAgain<T>(ring: seq<T>, n: nat)
    requires n <= |ring|
    ensures n > 0 ==> |Turned(ring, 1)| == |ring| && Turned(Turned(ring, 1), n - 1) == Turned(ring, n)
    ensures n == 0 || n == |ring| ==> Turned(ring, n) == ring
  {
  }

  // ------------------------------------------------------------------- idle

  /** A thread that yields alone lets idle run, and is back after the next yield;
      idle alone stays as it is. */
  lemma AloneWithIdle<T>(s: Sched<T>)
    requires s.queue == []
    ensures s.current == s.idle ==> Step(s, Yield) == s
    ensures s.current != s.idle ==>
              && Step(s, Yield) == Sched(s.idle, s.idle, [s.current], 10)
              && Run(s, [Yield, Yield]) == s.(slice := 10)
  {
    var one: seq<Event<T>> := [Yield];
    assert Run(s, one) == Run(Step(s, Yield), []);
    RunThen(s, one, Yield);
  }

  /** Idle is never queued, nor is a thread that exits: whoever waits moves up. */
  lemma NotQueued<T>(s: Sched<T>)
    ensures s.current == s.idle && s.queue != [] ==>
              Step(s, Yield) == Sched(s.queue[0], s.idle, s.queue[1..], 10)
    ensures s.current != s.idle ==>
              Step(s, Exit) == if s.queue == [] then Sched(s.idle, s.idle, [], 10)
                               else Sched(s.queue[0], s.idle, s.queue[1..], 10)
  {
  }
}
