/** The queue behind `nextTick`, which survives tasks that throw. */
module NextTick {
  import opened Options

  /** A task with what it enqueues when it runs, before it returns or throws. */
  datatype Task = Task(name: int, adds: seq<Task>, throws: bool)

  datatype Event = Enqueue(task: Task) | FireDrain | FireCleanUp

  /** How many runs of tasks a list of tasks still causes. */
  function Weight(ts: seq<Task>): nat {
    if ts == [] then 0 else 1 + Weight(ts[0].adds) + Weight(ts[1..])
  }

  lemma {:induction false} WeightJoin(a: seq<Task>, b: seq<Task>)
    ensures Weight(a + b) == Weight(a) + Weight(b)
  {
    if a == [] {
      assert a + b == b;
    } else {
      assert (a + b)[1..] == a[1..] + b && (a + b)[0] == a[0];
      WeightJoin(a[1..], b);
    }
  }

  /** Tasks are started in the order of their `nextTick`, each once; the rest is left. */
  ghost predicate InOrder(enqueued: seq<Task>, started: seq<Task>, left: seq<Task>) {
    enqueued == started + left
  }

  /** Running the task at i of a batch: what it enqueues goes to the end. */
  lemma OneRun(enqueued: seq<Task>, started: seq<Task>, batch: seq<Task>, i: nat, queue: seq<Task>)
    requires i < |batch| && InOrder(enqueued, started, batch[i..] + queue)
    ensures var t := batch[i];
      && InOrder(enqueued + t.adds, started + [t], batch[i + 1..] + (queue + t.adds))
      && Weight(batch[i..] + queue) == 1 + Weight(batch[i + 1..] + (queue + t.adds))
  {
    var t, rest := batch[i], batch[i + 1..];
    assert batch[i..] == [t] + rest;
    assert batch[i..] + queue == [t] + (rest + queue);
    assert rest + (queue + t.adds) == (rest + queue) + t.adds;
    assert started + ([t] + (rest + queue)) == (started + [t]) + (rest + queue);
    WeightJoin([t], rest + queue);
    WeightJoin(rest + queue, t.adds);
    assert [t][1..] == [];
  }

  /** What tasks enqueue, in order. */
  function Adds(ts: seq<Task>): seq<Task> {
    if ts == [] then [] else Adds(ts[..|ts| - 1]) + ts[|ts| - 1].adds
  }

  /** More tasks are started, none that throws but perhaps the last, and what they enqueue is enqueued. */
  ghost predicate Goes(started: seq<Task>, enqueued: seq<Task>, started': seq<Task>, enqueued': seq<Task>,
                       threw: bool) {
    && started <= started' && enqueued' == enqueued + Adds(started'[|started|..])
    && (threw ==> |started| < |started'| && started'[|started'| - 1].throws)
    && forall i | |started| <= i < |started'| - (if threw then 1 else 0) :: !started'[i].throws
  }

  lemma GoesNowhere(s: seq<Task>, e: seq<Task>)
    ensures Goes(s, e, s, e, false)
  {
  }

  lemma GoesOn(s0: seq<Task>, e0: seq<Task>, s1: seq<Task>, e1: seq<Task>, s2: seq<Task>, e2: seq<Task>, threw: bool)
    requires Goes(s0, e0, s1, e1, false) && Goes(s1, e1, s2, e2, threw)
    ensures Goes(s0, e0, s2, e2, threw)
  {
    hide Adds;
    AddsJoin(s1[|s0|..], s2[|s1|..]);
    assert s2[|s0|..] == s1[|s0|..] + s2[|s1|..];
  }

  lemma GoesOne(s: seq<Task>, e: seq<Task>, t: Task)
    ensures Goes(s, e, s + [t], e + t.adds, t.throws)
  {
    assert (s + [t])[|s|..] == [t] && Adds([t]) == Adds([]) + t.adds;
  }

  lemma {:induction false} AddsJoin(a: seq<Task>, b: seq<Task>)
    ensures Adds(a + b) == Adds(a) + Adds(b)
  {
    if b == [] {
      assert a + b == a;
    } else {
      assert (a + b)[..|a + b| - 1] == a + b[..|b| - 1];
      AddsJoin(a, b[..|b| - 1]);
    }
  }

  ghost function From(s: seq<Task>, i: int): seq<Task> {
    if 0 <= i <= |s| then s[i..] else []
  }

  lemma FromStart(s: seq<Task>)
    ensures From(s, 0) == s
  {
  }

  lemma AllStarted(enqueued: seq<Task>, started: seq<Task>)
    requires InOrder(enqueued, started, [])
    ensures started == enqueued
  {
  }

  lemma StartedFirst(enqueued: seq<Task>, started: seq<Task>, left: seq<Task>)
    requires InOrder(enqueued, started, left)
    ensures started <= enqueued && (left == [] ==> started == enqueued)
  {
  }

  lemma OneMore(enqueued: seq<Task>, started: seq<Task>, left: seq<Task>, task: Task)
    requires InOrder(enqueued, started, left)
    ensures InOrder(enqueued + [task], started, left + [task])
  {
  }

  /** The tasks that come from outside. */
  function Outside(events: seq<Event>): seq<Task> {
    if events == [] then []
    else if events[|events| - 1].Enqueue? then Outside(events[..|events| - 1]) + [events[|events| - 1].task]
    else Outside(events[..|events| - 1])
  }

  /** Enqueued are the tasks that were, those from outside, and those that started tasks have enqueued. */
  ghost predicate Counted(had: seq<Task>, was: seq<Task>, events: seq<Event>, has: seq<Task>, now: seq<Task>) {
    was <= now && multiset(has) == multiset(had) + multiset(Outside(events)) + multiset(Adds(now[|was|..]))
  }

  lemma CountedNone(had: seq<Task>, was: seq<Task>)
    ensures Counted(had, was, [], had, was)
  {
  }

  lemma CountedOn(had: seq<Task>, was: seq<Task>, events: seq<Event>, e: Event, has: seq<Task>, now: seq<Task>,
                  has': seq<Task>, now': seq<Task>)
    requires Counted(had, was, events, has, now)
    requires if e.Enqueue? then now' == now && has' == has + [e.task]
             else now <= now' && has' == has + Adds(now'[|now|..])
    ensures Counted(had, was, events + [e], has', now')
  {
    assert (events + [e])[..|events|] == events;
    var x := if e.Enqueue? then [e.task] else Adds(now'[|now|..]);
    var a, b, c := multiset(had), multiset(Outside(events)), multiset(Adds(now[|was|..]));
    TogetherCount(has, x);
    MoreOf(multiset(has), a, b, c, multiset(x));
    if e.Enqueue? {
      TogetherCount(Outside(events), x);
    } else {
      AddsJoin(now[|was|..], now'[|now|..]);
      assert now'[|was|..] == now[|was|..] + now'[|now|..];
      TogetherCount(Adds(now[|was|..]), x);
    }
  }

  lemma TogetherCount(s: seq<Task>, t: seq<Task>)
    ensures multiset(s + t) == multiset(s) + multiset(t)
  {
  }

  lemma MoreOf(all: multiset<Task>, a: multiset<Task>, b: multiset<Task>, c: multiset<Task>, x: multiset<Task>)
    requires all == a + b + c
    ensures all + x == a + (b + x) + c && all + x == a + b + (c + x)
  {
  }

  class Queue {
    var queue: seq<Task>
    var draining: bool
    var queueIndex: int
    var current: Option<seq<Task>>
    /** How many timers are set for `p` and for `h`. */
    var drainTimers: nat
    var cleanTimers: nat
    /** What has been seen: tasks given to `nextTick` and tasks started, in order. */
    var enqueued: seq<Task>
    var started: seq<Task>

    /** The tasks that have not been started: those left of a batch in hand, and the queue. */
    ghost function Pending(): seq<Task>
      reads this
    {
      if current.Some? && 0 <= queueIndex + 1 <= |current.value| then current.value[queueIndex + 1..] + queue
      else queue
    }

    /** What holds between events: while any task is left a timer is set, and a batch in hand is one that a task has
        interrupted by throwing. */
    ghost predicate Valid()
      reads this
    {
      && InOrder(enqueued, started, Pending())
      && (draining <==> current.Some?)
      && if draining then 0 <= queueIndex < |current.value| && cleanTimers == 1 && drainTimers == 0
         else queueIndex == -1 && cleanTimers == 0 && drainTimers == if queue == [] then 0 else 1
    }

    constructor ()
      ensures Valid() && enqueued == [] && started == []
    {
      queue, draining, queueIndex, current, drainTimers, cleanTimers := [], false, -1, None, 0, 0;
      enqueued, started := [], [];
    }

    /** `nextTick` */
    method NextTick(task: Task)
      modifies `queue, `drainTimers, `enqueued
      ensures queue == old(queue) + [task] && enqueued == old(enqueued) + [task]
      ensures drainTimers == old(drainTimers) + if |queue| == 1 && !draining then 1 else 0
    {
      queue := queue + [task];
      enqueued := enqueued + [task];
      if |queue| == 1 && !draining { drainTimers := drainTimers + 1; }
    }

    /** `run`: the task starts, enqueues, and returns or throws. */
    method RunTask(task: Task) returns (threw: bool)
      requires draining
      modifies `queue, `drainTimers, `enqueued, `started
      ensures queue == old(queue) + task.adds && enqueued == old(enqueued) + task.adds
      ensures started == old(started) + [task] && drainTimers == old(drainTimers) && threw == task.throws
    {
      started := started + [task];
      var i := 0;
      while i < |task.adds|
        invariant i <= |task.adds| && started == old(started) + [task] && drainTimers == old(drainTimers)
        invariant queue == old(queue) + task.adds[..i] && enqueued == old(enqueued) + task.adds[..i]
      {
        NextTick(task.adds[i]);
        i := i + 1;
      }
      threw := task.throws;
    }

    /** The inner loop of `p`: the batch in hand, from the given index on. */
    method RunBatch() returns (threw: bool)
      requires draining && current.Some? && -1 <= queueIndex < |current.value|
      requires InOrder(enqueued, started, Pending())
      modifies `queueIndex, `queue, `drainTimers, `enqueued, `started
      ensures InOrder(enqueued, started, Pending()) && drainTimers == old(drainTimers)
      ensures threw ==> 0 <= queueIndex < |current.value|
      ensures !threw ==> queueIndex == |current.value|
      ensures if old(queueIndex) + 1 == |current.value| then !threw && queue == old(queue) && started == old(started)
              else |old(started)| < |started|
      ensures Weight(Pending()) + |started| == Weight(old(Pending())) + |old(started)|
      ensures Goes(old(started), old(enqueued), started, enqueued, threw)
    {
      hide Weight, InOrder, Goes;
      var batch := current.value;
      queueIndex := queueIndex + 1;
      GoesNowhere(started, enqueued);
      while queueIndex < |batch|
        invariant old(queueIndex) < queueIndex <= |batch| && InOrder(enqueued, started, batch[queueIndex..] + queue)
        invariant drainTimers == old(drainTimers) && |started| == |old(started)| + (queueIndex - old(queueIndex) - 1)
        invariant queueIndex == old(queueIndex) + 1 ==> queue == old(queue) && started == old(started)
        invariant Weight(batch[queueIndex..] + queue) + |started| == Weight(old(Pending())) + |old(started)|
        invariant Goes(old(started), old(enqueued), started, enqueued, false)
      {
        OneRun(enqueued, started, batch, queueIndex, queue);
        GoesOne(started, enqueued, batch[queueIndex]);
        GoesOn(old(started), old(enqueued), started, enqueued, started + [batch[queueIndex]],
          enqueued + batch[queueIndex].adds, batch[queueIndex].throws);
        threw := RunTask(batch[queueIndex]);
        if threw {
          return;
        }
        queueIndex := queueIndex + 1;
      }
      assert batch[queueIndex..] + queue == queue;
      threw := false;
    }

    /** One round of the outer loop of `p`: the queue becomes the batch. */
    method NextBatch(ghost left: seq<Task>) returns (threw: bool)
      requires draining && -1 <= queueIndex < |queue| && left == From(queue, queueIndex + 1)
        && InOrder(enqueued, started, left)
      modifies `current, `queueIndex, `queue, `drainTimers, `enqueued, `started
      ensures drainTimers == old(drainTimers) && Goes(old(started), old(enqueued), started, enqueued, threw)
      ensures threw ==> current.Some? && 0 <= queueIndex < |current.value| && InOrder(enqueued, started, Pending())
      ensures threw ==> Weight(Pending()) + |started| == Weight(left) + |old(started)|
      ensures !threw ==> queueIndex == -1 && InOrder(enqueued, started, queue)
      ensures !threw ==> Weight(queue) + |started| == Weight(left) + |old(started)|
      ensures if left == [] then !threw && queue == [] && started == old(started) else |old(started)| < |started|
    {
      hide Weight, InOrder, Goes;
      current, queue := Some(queue), [];
      assert Pending() == left;
      threw := RunBatch();
      if !threw {
        assert Pending() == queue;
        queueIndex := -1;
      }
    }

    /** `p`: started by its timer with index -1, or by `h` with the index of the task that threw. */
    method DrainQueue(ghost all: seq<Task>) returns (threw: bool)
      requires !draining && -1 <= queueIndex < |queue| && queue != [] && drainTimers == cleanTimers == 0
      requires all == From(queue, queueIndex + 1) && InOrder(enqueued, started, all)
      modifies this
      ensures Valid() && Goes(old(started), old(enqueued), started, enqueued, threw) && draining == threw
      ensures !threw ==> started == enqueued
      ensures all != [] ==> |old(started)| < |started|
      ensures Weight(Pending()) + |started| == Weight(all) + |old(started)|
    {
      hide Weight, InOrder, Goes, From, Pending;
      GoesNowhere(started, enqueued);
      cleanTimers := cleanTimers + 1;
      draining := true;
      var len := |queue|;
      ghost var left := all;
      while len > 0
        invariant len == |queue| && draining && cleanTimers == 1 && drainTimers == 0
        invariant if len > 0 then -1 <= queueIndex < len && left == From(queue, queueIndex + 1)
                  else queueIndex == -1 && left == queue == []
        invariant InOrder(enqueued, started, left) && Goes(old(started), old(enqueued), started, enqueued, false)
        invariant (left == all && |started| == |old(started)|) || |old(started)| < |started| || all == []
        invariant Weight(left) + |started| == Weight(all) + |old(started)|
        decreases Weight(left), len
      {
        ghost var s, e := started, enqueued;
        threw := NextBatch(left);
        GoesOn(old(started), old(enqueued), s, e, started, enqueued, threw);
        if threw {
          return;
        }
        len := |queue|;
        left := queue;
        FromStart(queue);
      }
      current := None;
      draining := false;
      cleanTimers := cleanTimers - 1;
      threw := false;
      AllStarted(enqueued, started);
      NothingInHand();
    }

    lemma NothingInHand()
      requires current.None?
      ensures Pending() == queue
    {
    }

    /** The timer of `p`. */
    method FireDrain()
      requires Valid() && drainTimers > 0
      modifies this
      ensures Valid() && |old(started)| < |started| && (!draining ==> started == enqueued)
      ensures Goes(old(started), old(enqueued), started, enqueued, draining)
      ensures Weight(Pending()) + |started| == Weight(old(Pending())) + |old(started)|
    {
      hide Weight, InOrder, Goes;
      drainTimers := drainTimers - 1;
      if !draining {
        assert From(queue, queueIndex + 1) == Pending();
        var threw := DrainQueue(Pending());
      }
    }

    /** `h`, the timer that finds the batch of a task that threw. */
    method FireCleanUp()
      requires Valid() && cleanTimers > 0
      modifies this
      ensures Valid() && (old(Pending()) != [] ==> |old(started)| < |started|) && (!draining ==> started == enqueued)
      ensures Goes(old(started), old(enqueued), started, enqueued, draining)
      ensures Weight(Pending()) + |started| == Weight(old(Pending())) + |old(started)|
    {
      hide InOrder, Goes;
      cleanTimers := cleanTimers - 1;
      if draining && current.Some? {
        // An interrupted batch holds the task that threw, so the branch for an empty one is never taken.
        assert current.value != [];
        ghost var left := Pending();
        draining := false;
        queue := current.value + queue;
        assert From(queue, queueIndex + 1) == left;
        var threw := DrainQueue(left);
      }
    }

    /** After a timer: it goes on until a task throws or all have been started. */
    ghost predicate Fired(was: seq<Task>, had: seq<Task>, isSet: bool)
      reads `started, `enqueued, `draining
    {
      if isSet then Goes(was, had, started, enqueued, draining) && (!draining ==> started == enqueued)
      else started == was && enqueued == had
    }

    /** One event: a task from outside, or one of the timers that are set. */
    method Handle(e: Event)
      requires Valid()
      modifies this
      ensures Valid()
      ensures match e
        case Enqueue(t) => enqueued == old(enqueued) + [t] && started == old(started)
        case FireDrain => Fired(old(started), old(enqueued), old(drainTimers) > 0)
        case FireCleanUp => Fired(old(started), old(enqueued), old(cleanTimers) > 0)
    {
      hide InOrder, Weight;
      match e {
        case Enqueue(t) =>
          OneMore(enqueued, started, Pending(), t);
          ghost var left := Pending() + [t];
          NextTick(t);
          assert Pending() == left;
        case FireDrain => if drainTimers > 0 { FireDrain(); }
        case FireCleanUp => if cleanTimers > 0 { FireCleanUp(); }
      }
    }

    /** Over every run, what has been started is the first part of what has been enqueued, in the same order; and what
        has been enqueued is what came from outside and what the started tasks enqueued. */
    method Run(events: seq<Event>)
      requires Valid()
      modifies this
      ensures Valid() && old(started) <= started <= enqueued
      ensures drainTimers == cleanTimers == 0 ==> started == enqueued
      ensures Counted(old(enqueued), old(started), events, enqueued, started)
    {
      hide InOrder, Counted;
      var i := 0;
      CountedNone(enqueued, started);
      assert events[..0] == [];
      while i < |events|
        invariant i <= |events| && Valid() && old(started) <= started
        invariant Counted(old(enqueued), old(started), events[..i], enqueued, started)
      {
        ghost var was, had := started, enqueued;
        Handle(events[i]);
        FiredIs(was, had);
        assert events[..i + 1] == events[..i] + [events[i]];
        CountedOn(old(enqueued), old(started), events[..i], events[i], had, was, enqueued, started);
        i := i + 1;
      }
      assert events[..i] == events;
      StartedFirst(enqueued, started, Pending());
    }

    lemma FiredIs(was: seq<Task>, had: seq<Task>)
      ensures (exists isSet :: Fired(was, had, isSet)) ==> was <= started && enqueued == had + Adds(started[|was|..])
    {
      assert started == was ==> started[|was|..] == [];
    }

    /** Letting the timers run, in any order the choices give, starts everything that is ever enqueued: each firing
        starts a task, or ends the wait for the clean-up. */
    method Settle()
      requires Valid()
      modifies this
      ensures Valid() && drainTimers == cleanTimers == 0 && started == enqueued
      ensures |started| == |old(started)| + Weight(old(Pending()))
    {
      while drainTimers > 0 || cleanTimers > 0
        invariant Valid() && Weight(Pending()) + |started| == Weight(old(Pending())) + |old(started)|
        decreases Weight(Pending()), cleanTimers
      {
        if drainTimers > 0 { FireDrain(); } else { FireCleanUp(); }
      }
      assert Pending() == [];
      assert enqueued == started + Pending();
    }
  }
}
