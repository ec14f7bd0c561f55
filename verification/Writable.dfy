/** The buffer of a Writable stream: a state machine over writes, acknowledgements, ticks, corks and the end. */
module Writable {
  import opened Options

  /** A chunk with its length (1 in object mode); `ackNow` says that `_write` acknowledges it before it returns. */
  datatype Request<C> = Request(chunk: C, len: nat, ackNow: bool)

  /** What waits in the `nextTick` queue: the rest of an `onwrite`, the call of `_final`, the callback of a late
      write. */
  datatype Tick<C> = AfterTick(request: Request<C>, done: bool) | FinalTick | LateTick(request: Request<C>)

  datatype UserOp<C> = DoWrite(request: Request<C>) | DoEnd(last: Option<Request<C>>) | DoCork | DoUncork

  /** One event: a call by the user, the later acknowledgement of the chunk being written, the next tick, or the
      callback of `_final`. The operations are what the drain handler and the write callback do when they are run. */
  datatype Event<C> =
    | User(op: UserOp<C>)
    | Ack(onDrain: seq<UserOp<C>>, onDone: seq<UserOp<C>>)
    | RunTick(onDrain: seq<UserOp<C>>, onDone: seq<UserOp<C>>, finalNow: bool)
    | FinalDone

  function Sum<C>(rs: seq<Request<C>>): nat {
    if rs == [] then 0 else rs[0].len + Sum(rs[1..])
  }

  lemma {:induction false} SumPush<C>(rs: seq<Request<C>>, r: Request<C>)
    ensures Sum(rs + [r]) == Sum(rs) + r.len
  {
    if rs == [] {
      assert rs + [r] == [r];
    } else {
      assert (rs + [r])[1..] == rs[1..] + [r];
      SumPush(rs[1..], r);
    }
  }

  /** The requests whose callback waits for a tick. */
  function Waiting<C>(ticks: seq<Tick<C>>): seq<Request<C>> {
    if ticks == [] then []
    else (if ticks[0].AfterTick? then [ticks[0].request] else []) + Waiting(ticks[1..])
  }

  function Finals<C>(ticks: seq<Tick<C>>): nat {
    if ticks == [] then 0 else (if ticks[0].FinalTick? then 1 else 0) + Finals(ticks[1..])
  }

  lemma {:induction false} WaitingPush<C>(ticks: seq<Tick<C>>, t: Tick<C>)
    ensures Waiting(ticks + [t]) == Waiting(ticks) + if t.AfterTick? then [t.request] else []
  {
    if ticks == [] {
      assert ticks + [t] == [t];
    } else {
      assert (ticks + [t])[1..] == ticks[1..] + [t] && (ticks + [t])[0] == ticks[0];
      WaitingPush(ticks[1..], t);
    }
  }

  lemma {:induction false} FinalsPush<C>(ticks: seq<Tick<C>>, t: Tick<C>)
    ensures Finals(ticks + [t]) == Finals(ticks) + if t.FinalTick? then 1 else 0
  {
    if ticks == [] {
      assert ticks + [t] == [t];
    } else {
      assert (ticks + [t])[1..] == ticks[1..] + [t] && (ticks + [t])[0] == ticks[0];
      FinalsPush(ticks[1..], t);
    }
  }

  lemma TickPush<C>(ticks: seq<Tick<C>>, t: Tick<C>)
    ensures Waiting(ticks + [t]) == Waiting(ticks) + if t.AfterTick? then [t.request] else []
    ensures Finals(ticks + [t]) == Finals(ticks) + if t.FinalTick? then 1 else 0
  {
    hide *;
    WaitingPush(ticks, t);
    FinalsPush(ticks, t);
  }

  function Count(b: bool): nat {
    if b then 1 else 0
  }

  /** `length` is the size of what is being written and of the rest, which is still to be written. */
  ghost predicate Sizes<C>(length: int, current: Option<Request<C>>, rest: seq<Request<C>>) {
    length == (if current.Some? then current.value.len else 0) + Sum(rest)
  }

  /** Chunks reach `_write` in write order, one at a time. */
  ghost predicate InOrder<C>(accepted: seq<Request<C>>, sent: seq<Request<C>>, acked: seq<Request<C>>,
                             current: Option<Request<C>>, rest: seq<Request<C>>) {
    sent == acked + (if current.Some? then [current.value] else []) && accepted == sent + rest
  }

  /** Each acknowledged request has had its callback, waits for a tick, or is one of the loose ones in between. */
  ghost predicate Owed<C>(acked: seq<Request<C>>, called: seq<Request<C>>, ticks: seq<Tick<C>>,
      loose: seq<Request<C>>) {
    multiset(acked) == multiset(called) + multiset(Waiting(ticks)) + multiset(loose)
  }

  /** `pendingcb` counts the callbacks still owed, that of `_final` among them. */
  ghost predicate Pending<C>(pendingcb: int, current: Option<Request<C>>, rest: seq<Request<C>>, ticks: seq<Tick<C>>,
                             loose: seq<Request<C>>, open: bool) {
    pendingcb == Count(current.Some?) + |rest| + |Waiting(ticks)| + |loose| + Count(open)
  }

  ghost predicate TicksEnd<C>(ticks: seq<Tick<C>>, ending: bool) {
    forall t | t in ticks && t.AfterTick? && t.done :: ending
  }

  /** `_final` is called once, from a tick, and finish comes once, after prefinish, when nothing is owed. */
  ghost predicate Closing<C>(ticks: seq<Tick<C>>, finalAwaited: bool, finalCalled: bool, prefinished: bool,
                             prefinishes: nat,
                             finished: bool, finishes: nat, pendingcb: int) {
    && Finals(ticks) + Count(finalAwaited) == Count(finalCalled && !prefinished)
    && prefinishes == Count(prefinished) && finishes == Count(finished) && (finished ==> prefinished && pendingcb == 0)
  }

  lemma Begins<C>(length: int, accepted: seq<Request<C>>, sent: seq<Request<C>>, acked: seq<Request<C>>, pendingcb: int,
                  rest: seq<Request<C>>, ticks: seq<Tick<C>>, loose: seq<Request<C>>, open: bool, r: Request<C>)
    requires Sizes(length, None, [r] + rest) && InOrder(accepted, sent, acked, None, [r] + rest)
    requires Pending(pendingcb, None, [r] + rest, ticks, loose, open)
    ensures Sizes(length, Some(r), rest) && InOrder(accepted, sent + [r], acked, Some(r), rest)
    ensures Pending(pendingcb, Some(r), rest, ticks, loose, open)
  {
  }

  lemma Acknowledged<C>(length: int, accepted: seq<Request<C>>, sent: seq<Request<C>>, acked: seq<Request<C>>,
                        called: seq<Request<C>>,
                        pendingcb: int, rest: seq<Request<C>>, ticks: seq<Tick<C>>, loose: seq<Request<C>>, open: bool,
                        r: Request<C>)
    requires Sizes(length, Some(r), rest) && InOrder(accepted, sent, acked, Some(r), rest)
    requires Pending(pendingcb, Some(r), rest, ticks, loose, open) && Owed(acked, called, ticks, loose)
    ensures Sizes(length - r.len, None, rest) && InOrder(accepted, sent, acked + [r], None, rest)
    ensures Pending(pendingcb, None, rest, ticks, loose + [r], open) && Owed(acked + [r], called, ticks, loose + [r])
  {
  }

  /** The callback of the last loose request is left to a tick. */
  lemma Ticked<C>(acked: seq<Request<C>>, called: seq<Request<C>>, pendingcb: int, rest: seq<Request<C>>,
                  ticks: seq<Tick<C>>,
                  loose: seq<Request<C>>, open: bool, r: Request<C>, done: bool)
    requires Pending(pendingcb, None, rest, ticks, loose + [r], open) && Owed(acked, called, ticks, loose + [r])
    ensures Pending(pendingcb, None, rest, ticks + [AfterTick(r, done)], loose, open)
    ensures Owed(acked, called, ticks + [AfterTick(r, done)], loose)
  {
    TickPush(ticks, AfterTick(r, done));
  }

  lemma TicksEndPush<C>(ticks: seq<Tick<C>>, r: Request<C>, ending: bool)
    requires TicksEnd(ticks, ending)
    ensures TicksEnd(ticks + [AfterTick(r, false)], ending)
  {
  }

  lemma ClosingPush<C>(ticks: seq<Tick<C>>, t: Tick<C>, finalAwaited: bool, finalCalled: bool, prefinished: bool,
                       prefinishes: nat,
                       finished: bool, finishes: nat, pendingcb: int)
    requires Closing(ticks, finalAwaited, finalCalled, prefinished, prefinishes, finished, finishes, pendingcb)
      && !t.FinalTick?
    ensures Closing(ticks + [t], finalAwaited, finalCalled, prefinished, prefinishes, finished, finishes, pendingcb)
  {
    TickPush(ticks, t);
  }

  lemma Finalled<C>(pendingcb: int, current: Option<Request<C>>, rest: seq<Request<C>>, ticks: seq<Tick<C>>,
                    loose: seq<Request<C>>,
                    acked: seq<Request<C>>, called: seq<Request<C>>, ending: bool)
    requires Pending(pendingcb, current, rest, ticks, loose, false) && Owed(acked, called, ticks, loose)
      && TicksEnd(ticks, ending)
    ensures Pending(pendingcb + 1, current, rest, ticks + [FinalTick], loose, true)
      && Owed(acked, called, ticks + [FinalTick], loose)
    ensures TicksEnd(ticks + [FinalTick], ending)
  {
    TickPush(ticks, FinalTick);
  }

  lemma LateTicked<C>(pendingcb: int, current: Option<Request<C>>, rest: seq<Request<C>>, ticks: seq<Tick<C>>,
                      loose: seq<Request<C>>,
                      open: bool, acked: seq<Request<C>>, called: seq<Request<C>>, ending: bool, r: Request<C>)
    requires Pending(pendingcb, current, rest, ticks, loose, open) && Owed(acked, called, ticks, loose)
      && TicksEnd(ticks, ending)
    ensures Pending(pendingcb, current, rest, ticks + [LateTick(r)], loose, open)
      && Owed(acked, called, ticks + [LateTick(r)], loose)
    ensures TicksEnd(ticks + [LateTick(r)], ending)
  {
    TickPush(ticks, LateTick(r));
  }

  /** With no callback owed there is nothing to write. */
  lemma NothingOwed<C>(length: int, current: Option<Request<C>>, rest: seq<Request<C>>, ticks: seq<Tick<C>>,
                       loose: seq<Request<C>>,
                       pendingcb: int, open: bool)
    requires Sizes(length, current, rest) && Pending(pendingcb, current, rest, ticks, loose, open)
    ensures pendingcb >= |loose| && (pendingcb == 0 ==> length == 0 && current.None? && rest == [])
  {
  }

  lemma Owing<C>(pendingcb: int, current: Option<Request<C>>, rest: seq<Request<C>>, ticks: seq<Tick<C>>,
                 loose: seq<Request<C>>, open: bool)
    requires Pending(pendingcb, current, rest, ticks, loose, open)
    ensures pendingcb >= |loose| + |Waiting(ticks)| + Count(current.Some?) + |rest| + Count(open)
  {
  }

  lemma Accepting<C>(length: int, accepted: seq<Request<C>>, sent: seq<Request<C>>, acked: seq<Request<C>>,
                     current: Option<Request<C>>,
                     pendingcb: int, rest: seq<Request<C>>, ticks: seq<Tick<C>>, loose: seq<Request<C>>, open: bool,
                     r: Request<C>)
    requires Sizes(length, current, rest) && InOrder(accepted, sent, acked, current, rest)
    requires Pending(pendingcb, current, rest, ticks, loose, open)
    ensures Sizes(length + r.len, current, rest + [r]) && InOrder(accepted + [r], sent, acked, current, rest + [r])
    ensures Pending(pendingcb + 1, current, rest + [r], ticks, loose, open) && pendingcb >= |loose|
  {
    SumPush(rest, r);
  }

  lemma NotFinished<C>(ticks: seq<Tick<C>>, finalAwaited: bool, finalCalled: bool, prefinished: bool, prefinishes: nat,
                       finished: bool, finishes: nat, pendingcb: int)
    requires Closing(ticks, finalAwaited, finalCalled, prefinished, prefinishes, finished, finishes, pendingcb)
      && !prefinished
    ensures !finished && Closing(ticks, finalAwaited, finalCalled, prefinished, prefinishes, finished, finishes,
      pendingcb + 1)
  {
  }

  lemma ClosingFinal<C>(ticks: seq<Tick<C>>, finalAwaited: bool, prefinishes: nat, finished: bool, finishes: nat,
                        pendingcb: int)
    requires Closing(ticks, finalAwaited, false, false, prefinishes, finished, finishes, pendingcb)
    ensures Closing(ticks + [FinalTick], finalAwaited, true, false, prefinishes, finished, finishes, pendingcb + 1)
  {
    TickPush(ticks, FinalTick);
  }

  lemma ClosingPrefinish<C>(ticks: seq<Tick<C>>, finalAwaited: bool, prefinishes: nat, finished: bool, finishes: nat,
                            pendingcb: int)
    requires Closing(ticks, finalAwaited, false, false, prefinishes, finished, finishes, pendingcb)
    ensures Closing(ticks, finalAwaited, false, true, prefinishes + 1, finished, finishes, pendingcb)
  {
  }

  lemma ClosingFinish<C>(ticks: seq<Tick<C>>, finalAwaited: bool, finalCalled: bool, prefinishes: nat, finishes: nat)
    requires Closing(ticks, finalAwaited, finalCalled, true, prefinishes, false, finishes, 0)
    ensures Closing(ticks, finalAwaited, finalCalled, true, prefinishes, true, finishes + 1, 0)
  {
  }

  lemma TicksMayEnd<C>(ticks: seq<Tick<C>>)
    ensures TicksEnd(ticks, true)
  {
  }

  lemma CallOwed<C>(acked: seq<Request<C>>, called: seq<Request<C>>, ticks: seq<Tick<C>>, pendingcb: int,
                    current: Option<Request<C>>,
                    rest: seq<Request<C>>, open: bool, r: Request<C>)
    requires Owed(acked, called, ticks, [r]) && Pending(pendingcb, current, rest, ticks, [r], open)
    ensures Owed(acked, called + [r], ticks, []) && Pending(pendingcb - 1, current, rest, ticks, [], open)
      && pendingcb > 0
  {
  }

  lemma ClosingLess<C>(ticks: seq<Tick<C>>, finalAwaited: bool, finalCalled: bool, prefinished: bool, prefinishes: nat,
                       finished: bool, finishes: nat, pendingcb: int)
    requires Closing(ticks, finalAwaited, finalCalled, prefinished, prefinishes, finished, finishes, pendingcb)
      && pendingcb > 0
    ensures !finished && Closing(ticks, finalAwaited, finalCalled, prefinished, prefinishes, finished, finishes,
      pendingcb - 1)
  {
  }

  lemma TickTaken<C>(acked: seq<Request<C>>, called: seq<Request<C>>, ticks: seq<Tick<C>>, pendingcb: int,
                     current: Option<Request<C>>,
                     rest: seq<Request<C>>, open: bool, ending: bool)
    requires ticks != [] && Owed(acked, called, ticks, []) && Pending(pendingcb, current, rest, ticks, [], open)
      && TicksEnd(ticks, ending)
    ensures var loose := if ticks[0].AfterTick? then [ticks[0].request] else [];
      && Owed(acked, called, ticks[1..], loose) && Pending(pendingcb, current, rest, ticks[1..], loose, open)
    ensures TicksEnd(ticks[1..], ending) && (ticks[0].AfterTick? && ticks[0].done ==> ending)
  {
  }

  lemma ClosingTaken<C>(ticks: seq<Tick<C>>, finalAwaited: bool, finalCalled: bool, prefinished: bool, prefinishes: nat,
                        finished: bool, finishes: nat, pendingcb: int)
    requires Closing(ticks, finalAwaited, finalCalled, prefinished, prefinishes, finished, finishes, pendingcb)
      && ticks != []
    ensures Closing(ticks[1..], ticks[0].FinalTick? || finalAwaited, finalCalled, prefinished, prefinishes, finished,
      finishes, pendingcb)
    ensures ticks[0].FinalTick? ==> finalCalled && !prefinished
  {
  }

  lemma FinalOwed<C>(pendingcb: int, current: Option<Request<C>>, rest: seq<Request<C>>, ticks: seq<Tick<C>>,
                     finalCalled: bool, prefinished: bool)
    requires Pending(pendingcb, current, rest, ticks, [], finalCalled && !prefinished) && finalCalled && !prefinished
    ensures Pending(pendingcb - 1, current, rest, ticks, [], false)
  {
  }

  lemma ClosingDone<C>(ticks: seq<Tick<C>>, finalAwaited: bool, finalCalled: bool, prefinished: bool, prefinishes: nat,
                       finished: bool, finishes: nat, pendingcb: int)
    requires Closing(ticks, finalAwaited, finalCalled, prefinished, prefinishes, finished, finishes, pendingcb)
      && finalAwaited
    ensures finalCalled && !prefinished && !finished
    ensures Closing(ticks, false, finalCalled, true, prefinishes + 1, finished, finishes, pendingcb - 1)
  {
  }

  /** The chunks that operations write, in order, up to the end. */
  function Written<C>(ops: seq<UserOp<C>>, ended: bool): seq<Request<C>>
    decreases |ops|
  {
    if ended || ops == [] then []
    else
      match ops[0]
      case DoWrite(r) => [r] + Written(ops[1..], false)
      case DoEnd(last) => if last.Some? then [last.value] else []
      case DoCork => Written(ops[1..], false)
      case DoUncork => Written(ops[1..], false)
  }

  predicate Ends<C>(ops: seq<UserOp<C>>) {
    exists i :: 0 <= i < |ops| && ops[i].DoEnd?
  }

  lemma {:induction false} WrittenJoin<C>(a: seq<UserOp<C>>, b: seq<UserOp<C>>, ended: bool)
    ensures Written(a + b, ended) == Written(a, ended) + Written(b, ended || Ends(a))
    decreases |a|
  {
    if ended || a == [] {
      assert a == [] ==> a + b == b;
    } else {
      assert (a + b)[1..] == a[1..] + b && (a + b)[0] == a[0];
      WrittenJoin(a[1..], b, false);
      EndsFirst(a);
    }
  }

  lemma EndsFirst<C>(a: seq<UserOp<C>>)
    requires a != []
    ensures Ends(a) <==> a[0].DoEnd? || Ends(a[1..])
  {
    if Ends(a) {
      var i :| 0 <= i < |a| && a[i].DoEnd?;
      if i > 0 { assert a[1..][i - 1].DoEnd?; }
    }
    if Ends(a[1..]) {
      var i :| 0 <= i < |a| - 1 && a[1..][i].DoEnd?;
      assert a[i + 1].DoEnd?;
    }
  }

  lemma AfterEnd<C>(ops: seq<UserOp<C>>)
    ensures Written(ops, true) == []
  {
  }

  lemma EndsJoin<C>(a: seq<UserOp<C>>, op: UserOp<C>)
    ensures Ends(a + [op]) <==> Ends(a) || op.DoEnd?
    ensures Written([op], false) ==
      if op.DoWrite? then [op.request] else if op.DoEnd? && op.last.Some? then [op.last.value] else []
  {
    if Ends(a) {
      var i :| 0 <= i < |a| && a[i].DoEnd?;
      assert (a + [op])[i].DoEnd?;
    }
    if op.DoEnd? { assert (a + [op])[|a|].DoEnd?; }
  }

  /** How often the stream is corked, and how many writes came after the end. */
  datatype Marks = Marks(corked: nat, errors: nat)

  function MarkedBy<C>(m: Marks, op: UserOp<C>, ended: bool): Marks {
    match op
    case DoWrite(_) => Marks(m.corked, m.errors + Count(ended))
    case DoEnd(last) => Marks(0, m.errors + Count(ended && last.Some?))
    case DoCork => Marks(m.corked + 1, m.errors)
    case DoUncork => Marks(if m.corked == 0 then 0 else m.corked - 1, m.errors)
  }

  function Marked<C>(m: Marks, ops: seq<UserOp<C>>, ended: bool): Marks {
    if ops == [] then m
    else
      var before, op := ops[..|ops| - 1], ops[|ops| - 1];
      MarkedBy(Marked(m, before, ended), op, ended || Ends(before))
  }

  lemma {:induction false} MarkedJoin<C>(m: Marks, a: seq<UserOp<C>>, b: seq<UserOp<C>>, ended: bool)
    ensures Marked(m, a + b, ended) == Marked(Marked(m, a, ended), b, ended || Ends(a))
  {
    hide Ends, MarkedBy;
    if b == [] {
      assert a + b == a;
    } else {
      var before := b[..|b| - 1];
      assert (a + b)[..|a + b| - 1] == a + before;
      MarkedJoin(m, a, before, ended);
      EndsBoth(a, before);
    }
  }

  lemma NothingMarked<C>(m: Marks, ended: bool)
    ensures Marked<C>(m, [], ended) == m
  {
  }

  lemma OneMarked<C>(m: Marks, op: UserOp<C>, ended: bool)
    ensures Marked(m, [op], ended) == MarkedBy(m, op, ended)
  {
  }

  /** Two handlers, one after the other. */
  lemma DoneBoth<C>(m: Marks, a: seq<UserOp<C>>, b: seq<UserOp<C>>, ended: bool)
    ensures Written(a + b, ended) == Written(a, ended) + Written(b, ended || Ends(a))
    ensures Ends(a + b) <==> Ends(a) || Ends(b)
    ensures Marked(m, a + b, ended) == Marked(Marked(m, a, ended), b, ended || Ends(a))
  {
    WrittenJoin(a, b, ended);
    EndsBoth(a, b);
    MarkedJoin(m, a, b, ended);
  }

  /** What an event did: nothing, or what is asked for, with drain emitted or not. */
  datatype Happened = Nothing | Ran(drained: bool)

  /** What the handlers of an event do, one after the other: the drain handler before the callback of the write. */
  function Doing<C>(e: Event<C>, h: Happened): seq<UserOp<C>> {
    if h.Nothing? then []
    else
      match e
      case User(op) => [op]
      case Ack(onDrain, onDone) => (if h.drained then onDrain else []) + onDone
      case RunTick(onDrain, onDone, _) => (if h.drained then onDrain else []) + onDone
      case FinalDone => []
  }

  /** What is done in a run, one after the other. */
  function AllDoing<C>(events: seq<Event<C>>, hs: seq<Happened>): seq<UserOp<C>>
    requires |hs| == |events|
  {
    if events == [] then []
    else
      var n := |events| - 1;
      AllDoing(events[..n], hs[..n]) + Doing(events[n], hs[n])
  }

  function Drained(hs: seq<Happened>): nat {
    if hs == [] then 0 else Drained(hs[..|hs| - 1]) + Count(hs[|hs| - 1].Ran? && hs[|hs| - 1].drained)
  }

  lemma AllDoingOn<C>(events: seq<Event<C>>, hs: seq<Happened>, i: nat, h: Happened)
    requires i == |hs| < |events|
    ensures AllDoing(events[..i + 1], hs + [h]) == AllDoing(events[..i], hs) + Doing(events[i], h)
    ensures Drained(hs + [h]) == Drained(hs) + Count(h.Ran? && h.drained)
  {
    assert events[..i + 1][..i] == events[..i] && (hs + [h])[..i] == hs;
  }

  lemma NothingWritten<C>(ended: bool)
    ensures Written<C>([], ended) == [] && !Ends<C>([])
  {
  }

  lemma EndsBoth<C>(a: seq<UserOp<C>>, b: seq<UserOp<C>>)
    ensures Ends(a + b) <==> Ends(a) || Ends(b)
  {
    if Ends(a) {
      var i :| 0 <= i < |a| && a[i].DoEnd?;
      assert (a + b)[i].DoEnd?;
    }
    if Ends(b) {
      var i :| 0 <= i < |b| && b[i].DoEnd?;
      assert (a + b)[|a| + i].DoEnd?;
    }
  }

  class Stream<C(!new)> {
    const highWaterMark: nat
    const hasFinal: bool
    var length: int
    var writing: bool
    var writelen: int
    var current: Option<Request<C>>
    var corked: nat
    var ending: bool
    var ended: bool
    var finished: bool
    var needDrain: bool
    var prefinished: bool
    var finalCalled: bool
    var finalAwaited: bool
    var bufferProcessing: bool
    var buffered: seq<Request<C>>
    var bufferedCount: int
    var pendingcb: int
    var ticks: seq<Tick<C>>

    // What can be seen from outside: writes accepted, calls of `_write`, acknowledgements, callbacks run, events.
    var accepted: seq<Request<C>>
    var sent: seq<Request<C>>
    var acked: seq<Request<C>>
    var called: seq<Request<C>>
    var drains: nat
    var prefinishes: nat
    var finishes: nat
    /** How often the callback given to `_final` was called. */
    var finals: nat
    var errors: nat

    /** What holds at every moment, where rest are the requests not yet given to `_write` and loose those that
        are acknowledged, wait for no tick and have not had their callback run. */
    ghost predicate Inv(rest: seq<Request<C>>, loose: seq<Request<C>>)
      reads `length, `writing, `writelen, `current, `ending, `finished, `prefinished, `finalCalled, `finalAwaited,
        `pendingcb
      reads `ticks, `accepted, `sent, `acked, `called, `prefinishes, `finishes, `finals
    {
      && (writing <==> current.Some?) && writelen == (if writing then current.value.len else 0)
      && Sizes(length, current, rest) && InOrder(accepted, sent, acked, current, rest)
      && Owed(acked, called, ticks, loose) && TicksEnd(ticks, ending)
      && Pending(pendingcb, current, rest, ticks, loose, finalCalled && !prefinished)
      && Closing(ticks, finalAwaited, finalCalled, prefinished, prefinishes, finished, finishes, pendingcb)
      && (finalCalled ==> hasFinal) && finals == (if hasFinal && prefinished then 1 else 0)
      && (finalCalled || prefinished ==> ending && !writing && rest == [])
    }

    /** What holds whenever the user's code may run. */
    ghost predicate Safe(loose: seq<Request<C>>)
      reads this
    {
      && Inv(buffered, loose) && !bufferProcessing && ended == ending && bufferedCount == |buffered|
      && (buffered != [] ==> writing || corked > 0)
    }

    /** A refused write will be followed by a drain. */
    ghost predicate DrainDue(loose: seq<Request<C>>)
      reads this
    {
      needDrain && !ending ==> pendingcb > |loose|
    }

    /** An ended stream that has not finished still owes a callback. */
    ghost predicate FinishDue()
      reads this
    {
      ending && !finished ==> pendingcb > 0
    }

    /** What holds between events. */
    ghost predicate Valid()
      reads this
    {
      Safe([]) && DrainDue([]) && FinishDue()
    }

    ghost function Mark(): Marks
      reads `corked, `errors
    {
      Marks(corked, errors)
    }

    constructor (highWaterMark: nat, hasFinal: bool)
      ensures Valid() && accepted == [] && ticks == [] && corked == 0 && !ending && !needDrain && drains == 0
      ensures this.highWaterMark == highWaterMark && this.hasFinal == hasFinal
      ensures called == [] && finishes == prefinishes == finals == errors == 0
    {
      this.highWaterMark, this.hasFinal := highWaterMark, hasFinal;
      length, writing, writelen, current, corked := 0, false, 0, None, 0;
      ending, ended, finished, needDrain := false, false, false, false;
      prefinished, finalCalled, finalAwaited := false, false, false;
      bufferProcessing, buffered, bufferedCount, pendingcb, ticks := false, [], 0, 0, [];
      accepted, sent, acked, called, drains, prefinishes, finishes, finals, errors := [], [], [], [], 0, 0, 0, 0, 0;
    }

    /** `L` */
    predicate NeedFinish()
      reads this
    {
      ending && length == 0 && buffered == [] && !finished && !writing
    }

    /** `M`. When `_write` acknowledges at once, `onwrite` leaves the callback to a tick. */
    method StartWrite(r: Request<C>, ghost rest: seq<Request<C>>, ghost loose: seq<Request<C>>)
      requires Inv([r] + rest, loose) && !writing
      requires if bufferProcessing then buffered != [] else buffered == rest == [] && bufferedCount == 0 && !ending
      modifies `writing, `writelen, `current, `length, `sent, `acked, `ticks, `buffered, `bufferedCount,
        `bufferProcessing
      ensures Inv(rest, loose) && writing == !r.ackNow && sent == old(sent) + [r]
      ensures ticks == if r.ackNow then old(ticks) + [AfterTick(r, false)] else old(ticks)
      ensures acked == if r.ackNow then old(acked) + [r] else old(acked)
      ensures buffered == old(buffered) && bufferedCount == old(bufferedCount)
        && bufferProcessing == old(bufferProcessing)
      decreases if bufferProcessing then 0 else 1, 2
    {
      hide Sizes, InOrder, Owed, Pending, Closing, TicksEnd, Count, Finals, Waiting;
      Begins(length, accepted, sent, acked, pendingcb, rest, ticks, loose, finalCalled && !prefinished, r);
      writelen := r.len;
      current := Some(r);
      writing := true;
      sent := sent + [r];
      if r.ackNow {
        var t, done := Acknowledge(rest, loose);
        Ticked(acked, called, pendingcb, rest, ticks, loose, finalCalled && !prefinished, r, done);
        TicksEndPush(ticks, t, ending);
        ClosingPush(ticks, AfterTick(t, done), finalAwaited, finalCalled, prefinished, prefinishes, finished, finishes,
          pendingcb);
        ticks := ticks + [AfterTick(t, done)];
      }
    }

    /** The first half of `onwrite`: the chunk is done with, and the buffer gets its turn. */
    method Acknowledge(ghost rest: seq<Request<C>>, ghost loose: seq<Request<C>>) returns (r: Request<C>, done: bool)
      requires Inv(rest, loose) && writing
      requires if bufferProcessing then buffered != [] else buffered == rest && bufferedCount == |buffered|
      modifies `writing, `writelen, `current, `length, `sent, `acked, `ticks, `buffered, `bufferedCount,
        `bufferProcessing
      ensures r == old(current.value) && Inv(if bufferProcessing then rest else buffered, loose + [r])
      ensures bufferProcessing == old(bufferProcessing)
      ensures bufferProcessing || old(buffered) == [] ==>
        && buffered == old(buffered) && bufferedCount == old(bufferedCount) && sent == old(sent) && ticks == old(ticks)
        && !writing && acked == old(acked) + [r]
      ensures !bufferProcessing ==> bufferedCount == |buffered| && (buffered != [] ==> writing || corked > 0)
      ensures old(acked) + [r] <= acked && (done ==> ending && old(buffered) == [])
      decreases if bufferProcessing then 0 else 1, 1
    {
      hide Sizes, InOrder, Owed, Pending, Closing, TicksEnd, Count, Finals, Waiting;
      r := current.value;
      Acknowledged(length, accepted, sent, acked, called, pendingcb, rest, ticks, loose, finalCalled && !prefinished,
        r);
      writing, current := false, None;
      length := length - writelen;
      writelen := 0;
      acked := acked + [r];
      done := NeedFinish();
      if !done && corked == 0 && !bufferProcessing && buffered != [] {
        ClearBuffer(loose + [r]);
      }
    }

    /** `m`, without `_writev`. */
    method ClearBuffer(ghost loose: seq<Request<C>>)
      requires Inv(buffered, loose) && !writing && !bufferProcessing && buffered != [] && bufferedCount == |buffered|
      modifies `writing, `writelen, `current, `length, `sent, `acked, `ticks, `buffered, `bufferedCount,
        `bufferProcessing
      ensures Inv(buffered, loose) && !bufferProcessing && bufferedCount == |buffered| && (buffered != [] ==> writing)
      ensures old(acked) <= acked && |buffered| < |old(buffered)|
      decreases if bufferProcessing then 0 else 1, 0
    {
      hide Inv;
      bufferProcessing := true;
      var n := buffered;
      while n != []
        invariant Inv(n, loose) && bufferProcessing && buffered == old(buffered) && bufferedCount == |n| && !writing
        invariant old(acked) <= acked && |n| <= |buffered| && (n == buffered || |n| < |buffered|)
        decreases |n|
      {
        assert n == [n[0]] + n[1..];
        StartWrite(n[0], n[1..], loose);
        n := n[1..];
        bufferedCount := bufferedCount - 1;
        if writing { break; }
      }
      buffered := n;
      bufferProcessing := false;
    }

    /** The inner part of `j`: prefinish, or the tick that will call `_final`. */
    method Prefinish(ghost loose: seq<Request<C>>)
      requires Safe(loose) && NeedFinish()
      modifies `prefinished, `prefinishes, `finalCalled, `pendingcb, `ticks
      ensures Safe(loose) && pendingcb >= old(pendingcb) && (pendingcb == 0 || old(prefinished) ==> prefinished)
    {
      hide Sizes, InOrder, Owed, Pending, Closing, TicksEnd, Waiting;
      if !prefinished && !finalCalled {
        if hasFinal {
          Finalled(pendingcb, current, buffered, ticks, loose, acked, called, ending);
          ClosingFinal(ticks, finalAwaited, prefinishes, finished, finishes, pendingcb);
          pendingcb := pendingcb + 1;
          finalCalled := true;
          ticks := ticks + [FinalTick];
        } else {
          ClosingPrefinish(ticks, finalAwaited, prefinishes, finished, finishes, pendingcb);
          prefinished := true;
          prefinishes := prefinishes + 1;
        }
      }
      Owing(pendingcb, current, buffered, ticks, loose, finalCalled && !prefinished);
    }

    /** `j` */
    method FinishMaybe(ghost loose: seq<Request<C>>)
      requires Safe(loose)
      modifies `prefinished, `prefinishes, `finalCalled, `pendingcb, `ticks, `finished, `finishes
      ensures Safe(loose) && FinishDue() && pendingcb >= old(pendingcb)
      ensures (!ending ==> pendingcb == old(pendingcb)) && (old(prefinished) ==> prefinished)
    {
      hide Sizes, InOrder, Owed, Pending, Closing, TicksEnd, Finals, Waiting, Count;
      var need := NeedFinish();
      NothingOwed(length, current, buffered, ticks, loose, pendingcb, finalCalled && !prefinished);
      if need {
        Prefinish(loose);
        if pendingcb == 0 {
          ClosingFinish(ticks, finalAwaited, finalCalled, prefinishes, finishes);
          finished := true;
          finishes := finishes + 1;
        }
      }
    }

    /** `write` after the end: an error, and a tick for the callback. */
    method WriteAfterEnd(r: Request<C>, ghost loose: seq<Request<C>>)
      requires Safe(loose)
      modifies `ticks, `errors
      ensures Safe(loose) && errors == old(errors) + 1 && ticks == old(ticks) + [LateTick(r)]
    {
      hide Sizes, InOrder, Owed, Pending, Closing, TicksEnd, Finals, Waiting, Count;
      errors := errors + 1;
      LateTicked(pendingcb, current, buffered, ticks, loose, finalCalled && !prefinished, acked, called, ending, r);
      ClosingPush(ticks, LateTick(r), finalAwaited, finalCalled, prefinished, prefinishes, finished, finishes,
        pendingcb);
      ticks := ticks + [LateTick(r)];
    }

    /** The count of callbacks and the length take the new chunk in. */
    method Accept(r: Request<C>, ghost loose: seq<Request<C>>)
      requires Inv(buffered, loose) && !ending
      modifies `pendingcb, `length, `accepted
      ensures Inv(buffered + [r], loose) && pendingcb > |loose|
      ensures length == old(length) + r.len && accepted == old(accepted) + [r]
    {
      hide Sizes, InOrder, Owed, Pending, Closing, TicksEnd, Count, Finals, Waiting;
      Accepting(length, accepted, sent, acked, current, pendingcb, buffered, ticks, loose,
                finalCalled && !prefinished, r);
      NotFinished(ticks, finalAwaited, finalCalled, prefinished, prefinishes, finished, finishes, pendingcb);
      pendingcb := pendingcb + 1;
      length := length + r.len;
      accepted := accepted + [r];
    }

    /** `writeOrBuffer` */
    method WriteOrBuffer(r: Request<C>, ghost loose: seq<Request<C>>) returns (ok: bool)
      requires Safe(loose) && !ended
      modifies `writing, `writelen, `current, `length, `sent, `acked, `ticks, `buffered, `bufferedCount,
        `bufferProcessing
      modifies `pendingcb, `accepted, `needDrain
      ensures Safe(loose) && pendingcb > |loose|
      ensures ok == (old(length) + r.len < highWaterMark) && needDrain == (old(needDrain) || !ok)
      ensures accepted == old(accepted) + [r]
      ensures sent == if old(writing || corked > 0) then old(sent) else old(sent) + [r]
    {
      hide Inv;
      Accept(r, loose);
      ok := length < highWaterMark;
      if !ok { needDrain := true; }
      if writing || corked > 0 {
        buffered := buffered + [r];
        bufferedCount := bufferedCount + 1;
      } else {
        assert buffered + [r] == [r] + [];
        StartWrite(r, [], loose);
      }
    }

    lemma SafeEnds(loose: seq<Request<C>>)
      requires Safe(loose)
      ensures ended == ending && pendingcb >= |loose|
    {
    }

    /** `write` */
    method Write(r: Request<C>, ghost loose: seq<Request<C>>) returns (ok: bool)
      requires Safe(loose) && DrainDue(loose)
      modifies this
      ensures Safe(loose) && DrainDue(loose) && (old(FinishDue()) ==> FinishDue())
      ensures called == old(called) && drains == old(drains) && corked == old(corked) && finals == old(finals)
      ensures ending == old(ending) && ended == old(ended) && finished == old(finished) && finishes == old(finishes)
      ensures old(ended) ==>
        !ok && accepted == old(accepted) && errors == old(errors) + 1 && needDrain == old(needDrain)
      ensures !old(ended) ==> ok == (old(length) + r.len < highWaterMark) && accepted == old(accepted) + [r]
      ensures !old(ended) ==> needDrain == (old(needDrain) || !ok) && errors == old(errors)
      ensures sent == if old(ended || writing || corked > 0) then old(sent) else old(sent) + [r]
    {
      hide Safe;
      SafeEnds(loose);
      if ended {
        WriteAfterEnd(r, loose);
        return false;
      }
      ok := WriteOrBuffer(r, loose);
    }

    /** `cork` */
    method Cork(ghost loose: seq<Request<C>>)
      requires Safe(loose)
      modifies `corked
      ensures Safe(loose) && corked == old(corked) + 1
    {
      hide Inv;
      corked := corked + 1;
    }

    /** `uncork` */
    method Uncork(ghost loose: seq<Request<C>>)
      requires Safe(loose)
      modifies `corked, `writing, `writelen, `current, `length, `sent, `acked, `ticks, `buffered, `bufferedCount,
        `bufferProcessing
      ensures Safe(loose) && corked == (if old(corked) == 0 then 0 else old(corked) - 1)
      ensures corked == 0 && buffered != [] ==> writing
    {
      UnfinishedBuffer(loose);
      hide Inv;
      if corked != 0 {
        corked := corked - 1;
        if !writing && corked == 0 && !finished && !bufferProcessing && buffered != [] {
          ClearBuffer(loose);
        }
      }
    }

    lemma UnfinishedBuffer(loose: seq<Request<C>>)
      requires Safe(loose)
      ensures finished ==> buffered == []
    {
    }

    /** `end`, for a stream that is not ending yet. */
    method EndWritable(ghost loose: seq<Request<C>>)
      requires Safe(loose) && !ending && corked == 0
      modifies `ending, `ended, `prefinished, `prefinishes, `finalCalled, `pendingcb, `ticks, `finished, `finishes
      ensures Safe(loose) && FinishDue() && ending && pendingcb >= old(pendingcb)
    {
      TicksMayEnd(ticks);
      ending, ended := true, true;
      hide Inv;
      FinishMaybe(loose);
    }

    /** `end` */
    method End(last: Option<Request<C>>, ghost loose: seq<Request<C>>)
      requires Safe(loose) && DrainDue(loose)
      modifies this
      ensures Safe(loose) && DrainDue(loose) && (old(FinishDue()) ==> FinishDue()) && ending && corked == 0
      ensures called == old(called) && drains == old(drains) && finals == old(finals)
      ensures accepted == (old(accepted) + if last.Some? && !old(ended) then [last.value] else []) && ended
      ensures errors == old(errors) + Count(last.Some? && old(ended))
    {
      hide Inv;
      if last.Some? { var ok := Write(last.value, loose); }
      if corked != 0 {
        corked := 1;
        Uncork(loose);
      }
      if !ending && !finished {
        EndWritable(loose);
      }
      FinishedEnded(loose);
    }

    lemma FinishedEnded(loose: seq<Request<C>>)
      requires Safe(loose)
      ensures finished ==> ending
    {
    }

    /** What a handler or callback does when it is run. */
    method Perform(ops: seq<UserOp<C>>, ghost loose: seq<Request<C>>)
      requires Safe(loose) && DrainDue(loose)
      modifies this
      ensures Safe(loose) && DrainDue(loose) && (old(FinishDue()) ==> FinishDue())
      ensures called == old(called) && drains == old(drains) && finals == old(finals)
      ensures accepted == old(accepted) + Written(ops, old(ended)) && ended == (old(ended) || Ends(ops))
      ensures Mark() == Marked(old(Mark()), ops, old(ended))
    {
      hide Inv, Safe, DrainDue, FinishDue, Written, Ends, Marked;
      ghost var due := FinishDue();
      NothingWritten<C>(ended);
      NothingMarked<C>(Mark(), ended);
      assert ops[..0] == [];
      var i := 0;
      while i < |ops|
        invariant i <= |ops| && Safe(loose) && DrainDue(loose) && (due ==> FinishDue())
        invariant called == old(called) && drains == old(drains) && finals == old(finals)
        invariant Mark() == Marked(old(Mark()), ops[..i], old(ended))
        invariant accepted == old(accepted) + Written(ops[..i], old(ended)) && ended == (old(ended) || Ends(ops[..i]))
      {
        SafeEnds(loose);
        assert ops[..i + 1] == ops[..i] + [ops[i]];
        WrittenJoin(ops[..i], [ops[i]], old(ended));
        EndsJoin(ops[..i], ops[i]);
        AfterEnd([ops[i]]);
        MarkedJoin(old(Mark()), ops[..i], [ops[i]], old(ended));
        OneMarked(Mark(), ops[i], ended);
        match ops[i] {
          case DoWrite(r) => var ok := Write(r, loose);
          case DoEnd(last) => End(last, loose);
          case DoCork => CorkOp(loose);
          case DoUncork => UncorkOp(loose);
        }
        i := i + 1;
        SafeEnds(loose);
      }
      assert ops[..i] == ops;
    }

    method CorkOp(ghost loose: seq<Request<C>>)
      requires Safe(loose) && DrainDue(loose)
      modifies `corked
      ensures Safe(loose) && DrainDue(loose) && (old(FinishDue()) ==> FinishDue()) && corked == old(corked) + 1
    {
      hide Inv, Safe;
      Cork(loose);
    }

    method UncorkOp(ghost loose: seq<Request<C>>)
      requires Safe(loose) && DrainDue(loose)
      modifies `corked, `writing, `writelen, `current, `length, `sent, `acked, `ticks, `buffered, `bufferedCount,
        `bufferProcessing
      ensures Safe(loose) && DrainDue(loose) && (old(FinishDue()) ==> FinishDue())
      ensures corked == if old(corked) == 0 then 0 else old(corked) - 1
    {
      hide Inv, Safe;
      Uncork(loose);
    }

    /** `_`: drain if it is time, the callback, and perhaps the end. */
    method AfterWrite(r: Request<C>, done: bool, onDrain: seq<UserOp<C>>, onDone: seq<UserOp<C>>)
      requires Safe([r]) && (done ==> ending)
      modifies this
      ensures Valid() && called == old(called) + [r]
      ensures drains == old(drains) + Count(!done && old(length == 0 && needDrain)) && finals == old(finals)
      ensures var ops := (if drains > old(drains) then onDrain else []) + onDone;
        && accepted == old(accepted) + Written(ops, old(ended)) && ended == (old(ended) || Ends(ops))
        && Mark() == Marked(old(Mark()), ops, old(ended))
    {
      hide Inv, Safe, Written, Ends, Marked;
      ghost var first := if !done && length == 0 && needDrain then onDrain else [];
      DoneBoth(Mark(), first, onDone, ended);
      DrainFirst(r, done, onDrain);
      Called(r);
      Perform(onDone, []);
      FinishMaybe([]);
    }

    /** Drain is emitted if it is time, before the callback. */
    method DrainFirst(r: Request<C>, done: bool, onDrain: seq<UserOp<C>>)
      requires Safe([r]) && (done ==> ending)
      modifies this
      ensures Safe([r]) && DrainDue([r]) && called == old(called) && finals == old(finals)
      ensures drains == old(drains) + Count(!done && old(length == 0 && needDrain))
      ensures var ops := if drains > old(drains) then onDrain else [];
        && accepted == old(accepted) + Written(ops, old(ended)) && ended == (old(ended) || Ends(ops))
        && Mark() == Marked(old(Mark()), ops, old(ended))
    {
      hide Inv, Safe, Written, Ends, Marked;
      DrainNeeded(r);
      NothingWritten<C>(ended);
      NothingMarked<C>(Mark(), ended);
      if !done && length == 0 && needDrain {
        Drain(r);
        Perform(onDrain, [r]);
      }
    }

    /** A stream with something left to acknowledge owes more than one callback. */
    lemma DrainNeeded(r: Request<C>)
      requires Safe([r])
      ensures length != 0 ==> pendingcb > 1
    {
    }

    method Drain(r: Request<C>)
      requires Safe([r])
      modifies `needDrain, `drains
      ensures Safe([r]) && !needDrain && drains == old(drains) + 1
    {
      hide Inv;
      needDrain := false;
      drains := drains + 1;
    }

    /** The callback is run. */
    method Called(r: Request<C>)
      requires Safe([r]) && DrainDue([r])
      modifies `pendingcb, `called
      ensures Safe([]) && DrainDue([]) && called == old(called) + [r]
    {
      hide Sizes, InOrder, Owed, Pending, Closing, TicksEnd, Finals, Waiting, Count;
      CallOwed(acked, called, ticks, pendingcb, current, buffered, finalCalled && !prefinished, r);
      ClosingLess(ticks, finalAwaited, finalCalled, prefinished, prefinishes, finished, finishes, pendingcb);
      pendingcb := pendingcb - 1;
      called := called + [r];
    }

    /** `onwrite`, called after `_write` has returned. */
    method OnWrite(onDrain: seq<UserOp<C>>, onDone: seq<UserOp<C>>)
      requires Valid() && writing
      modifies this
      ensures Valid() && called == old(called) + [old(current.value)] && old(drains) <= drains <= old(drains) + 1
      ensures var ops := (if drains > old(drains) then onDrain else []) + onDone;
        && accepted == old(accepted) + Written(ops, old(ended)) && ended == (old(ended) || Ends(ops))
        && Mark() == Marked(old(Mark()), ops, old(ended))
      ensures finals == old(finals)
    {
      hide Inv, Written, Ends, Marked;
      var r, done := Acknowledge(buffered, []);
      assert [] + [r] == [r];
      AfterWrite(r, done, onDrain, onDone);
    }

    /** The tick at the head of the queue is taken off. */
    method TakeTick() returns (t: Tick<C>)
      requires Valid() && ticks != []
      modifies `ticks, `finalAwaited
      ensures t == old(ticks[0]) && ticks == old(ticks[1..])
      ensures Safe(if t.AfterTick? then [t.request] else []) && (t.AfterTick? && t.done ==> ending)
      ensures !t.AfterTick? ==> Valid()
      ensures t.FinalTick? ==> finalAwaited && finalCalled && !prefinished
      ensures !t.FinalTick? ==> finalAwaited == old(finalAwaited)
    {
      hide Sizes, InOrder, Owed, Pending, Closing, TicksEnd;
      t := ticks[0];
      TickTaken(acked, called, ticks, pendingcb, current, buffered, finalCalled && !prefinished, ending);
      ClosingTaken(ticks, finalAwaited, finalCalled, prefinished, prefinishes, finished, finishes, pendingcb);
      ticks := ticks[1..];
      if t.FinalTick? { finalAwaited := true; }
    }

    /** The callback given to `_final`. */
    method FinalCallback()
      requires Valid() && finalAwaited
      modifies this
      ensures Valid() && !finalAwaited && prefinished && called == old(called) && accepted == old(accepted)
      ensures ending == old(ending) && ended == old(ended) && drains == old(drains) && finals == old(finals) + 1
      ensures Mark() == old(Mark())
    {
      hide Inv, Safe;
      FinalReturns();
      FinishMaybe([]);
    }

    method FinalReturns()
      requires Valid() && finalAwaited
      modifies `finalAwaited, `finals, `pendingcb, `prefinished, `prefinishes
      ensures Safe([]) && DrainDue([]) && !finalAwaited && prefinished && finals == old(finals) + 1
    {
      hide Sizes, InOrder, Owed, Pending, Closing, TicksEnd, Waiting, Count, Finals;
      ClosingDone(ticks, finalAwaited, finalCalled, prefinished, prefinishes, finished, finishes, pendingcb);
      FinalOwed(pendingcb, current, buffered, ticks, finalCalled, prefinished);
      finalAwaited := false;
      finals := finals + 1;
      pendingcb := pendingcb - 1;
      prefinished := true;
      prefinishes := prefinishes + 1;
    }

    /** The next tick. */
    method NextTick(onDrain: seq<UserOp<C>>, onDone: seq<UserOp<C>>, finalNow: bool)
      requires Valid() && ticks != []
      modifies this
      ensures Valid() && old(drains) <= drains <= old(drains) + 1
      ensures called == old(called) + if old(ticks[0].AfterTick?) then [old(ticks[0].request)] else []
      ensures old(ticks[0].AfterTick?) ==>
        var ops := (if drains > old(drains) then onDrain else []) + onDone;
        && accepted == old(accepted) + Written(ops, old(ended)) && ended == (old(ended) || Ends(ops))
        && Mark() == Marked(old(Mark()), ops, old(ended))
      ensures !old(ticks[0].AfterTick?) ==>
        accepted == old(accepted) && ended == old(ended) && drains == old(drains) && Mark() == old(Mark())
      ensures finals == old(finals) + Count(old(ticks[0].FinalTick?) && finalNow)
    {
      hide Inv, Safe, Written, Ends, Marked;
      var t := TakeTick();
      match t {
        case AfterTick(r, done) => AfterWrite(r, done, onDrain, onDone);
        case FinalTick => if finalNow { FinalCallback(); }
        case LateTick(_) =>
      }
    }

    lemma WritingCurrent()
      requires Valid()
      ensures writing ==> current.Some?
    {
    }

    /** One event, if it can happen now. */
    method Handle(e: Event<C>) returns (ghost h: Happened)
      requires Valid()
      modifies this
      ensures Valid() && drains == old(drains) + Count(h.Ran? && h.drained)
      ensures accepted == old(accepted) + Written(Doing(e, h), old(ended))
      ensures ended == (old(ended) || Ends(Doing(e, h))) && Mark() == Marked(old(Mark()), Doing(e, h), old(ended))
      ensures finals == old(finals) + Count(match e
        case User(_) => false
        case Ack(_, _) => false
        case RunTick(_, _, finalNow) => finalNow && old(ticks) != [] && old(ticks)[0].FinalTick?
        case FinalDone => old(finalAwaited))
      ensures called == old(called) + match e
        case User(_) => []
        case Ack(_, _) => if old(writing) then [old(current.value)] else []
        case RunTick(_, _, _) => if old(ticks) != [] && old(ticks)[0].AfterTick? then [old(ticks)[0].request] else []
        case FinalDone => []
      ensures h.Nothing? <==> match e
        case User(_) => false
        case Ack(_, _) => !old(writing)
        case RunTick(_, _, _) => old(ticks) == [] || !old(ticks)[0].AfterTick?
        case FinalDone => !old(finalAwaited)
    {
      hide Inv, Safe, Written, Ends, Marked;
      WritingCurrent();
      NothingWritten<C>(ended);
      NothingMarked<C>(Mark(), ended);
      h := Nothing;
      ghost var before := drains;
      match e {
        case User(op) =>
          Perform([op], []);
          h := Ran(false);
        case Ack(onDrain, onDone) =>
          if writing {
            OnWrite(onDrain, onDone);
            h := Ran(drains > before);
          }
        case RunTick(onDrain, onDone, finalNow) =>
          if ticks != [] {
            if ticks[0].AfterTick? { h := Ran(false); }
            NextTick(onDrain, onDone, finalNow);
            if h.Ran? { h := Ran(drains > before); }
          }
        case FinalDone =>
          if finalAwaited {
            FinalCallback();
            h := Ran(false);
          }
      }
    }

    /** Every run keeps the invariant, and accepts what the user and the handlers write, in the order in which they are
        run, up to the end. */
    method Run(events: seq<Event<C>>) returns (ghost hs: seq<Happened>)
      requires Valid()
      modifies this
      ensures Valid() && old(called) <= called && |hs| == |events|
      ensures accepted == old(accepted) + Written(AllDoing(events, hs), old(ended))
      ensures ended == (old(ended) || Ends(AllDoing(events, hs)))
      ensures drains == old(drains) + Drained(hs)
      ensures Mark() == Marked(old(Mark()), AllDoing(events, hs), old(ended))
    {
      hide Inv, Safe, Valid, Written, Ends, Doing, Marked;
      hs := [];
      NothingWritten<C>(ended);
      NothingMarked<C>(Mark(), ended);
      var i := 0;
      while i < |events|
        invariant i == |hs| <= |events| && Valid() && old(called) <= called
        invariant accepted == old(accepted) + Written(AllDoing(events[..i], hs), old(ended))
        invariant ended == (old(ended) || Ends(AllDoing(events[..i], hs))) && drains == old(drains) + Drained(hs)
        invariant Mark() == Marked(old(Mark()), AllDoing(events[..i], hs), old(ended))
      {
        ghost var h := Handle(events[i]);
        AllDoingOn(events, hs, i, h);
        WrittenJoin(AllDoing(events[..i], hs), Doing(events[i], h), old(ended));
        EndsBoth(AllDoing(events[..i], hs), Doing(events[i], h));
        MarkedJoin(old(Mark()), AllDoing(events[..i], hs), Doing(events[i], h), old(ended));
        hs := hs + [h];
        i := i + 1;
      }
      assert events[..i] == events;
    }

    /** `length` is the size of the chunks accepted and not acknowledged; of those at most one has reached `_write`,
        and the chunks have reached it in write order. */
    lemma LengthIsUnacknowledged()
      requires Valid()
      ensures acked <= sent <= accepted && |sent| <= |acked| + 1
      ensures length == Sum(accepted[|acked|..])
    {
    }

    /** Finish is emitted once at most, after the end, when every chunk has been acknowledged and every callback run. */
    lemma WhenFinished()
      requires Valid()
      ensures finishes <= 1 && (finishes == 1 <==> finished)
      ensures finished ==>
        ended && prefinishes == 1 && acked == sent == accepted && multiset(called) == multiset(accepted)
      ensures finished ==> length == 0 && pendingcb == 0 && (hasFinal ==> finals == 1)
      ensures !hasFinal ==> finals == 0
    {
    }

    /** When nothing is under way and the stream is not corked, everything accepted has been written, acknowledged and
        called back; an ended stream has finished, and any other has drained. */
    lemma WhenSettled()
      requires Valid() && !writing && ticks == [] && corked == 0 && !finalAwaited
      ensures acked == sent == accepted && multiset(called) == multiset(accepted) && length == 0 && pendingcb == 0
      ensures if ending then finished && finishes == 1 else !needDrain
    {
    }
  }
}
