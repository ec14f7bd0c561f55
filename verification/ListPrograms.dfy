/** Whole programs over many lists that share trie nodes, some of them mutable. */
module ListPrograms {
  import opened ListTrie
  import opened ListViews
  import opened Options

  /** A statement `r = lists[h].method(...)`, its result kept as a new variable. */
  datatype Cmd<T> =
    | Call(h: nat, op: Op<T>)
    | With(h: nat, calls: seq<Op<T>>)
    | Mutable(h: nat)
    | Immutable(h: nat)

  /** What a variable stands for: a plain sequence, in which None is undefined, and whether calls change it in place. */
  datatype Ref<T> = Ref(elems: seq<Option<T>>, mutable: bool)

  /** What the result of a statement on a list that stands for v stands for. */
  function After<T>(v: Ref<T>, c: Cmd<T>): Ref<T> {
    match c
    case Call(_, op) => Ref(Applied(v.elems, op), v.mutable)
    case With(_, calls) => Ref(AppliedAll(v.elems, calls), v.mutable)
    case Mutable(_) => Ref(v.elems, true)
    case Immutable(_) => Ref(v.elems, false)
  }

  /** The meaning of a statement on plain sequences: a call on an immutable list makes a new value and changes no
      other. */
  function Exec<T>(s: seq<Ref<T>>, c: Cmd<T>): seq<Ref<T>> {
    if c.h >= |s| then s else Placed(s, c, s[c.h].mutable, After(s[c.h], c))
  }

  /** The result is kept in the variable itself, or as a new one. */
  function Placed<V, T>(s: seq<V>, c: Cmd<T>, mutable: bool, r: V): seq<V>
    requires c.h < |s|
  {
    if mutable || c.Immutable? then s[c.h := r] else s + [r]
  }

  function ExecAll<T>(s: seq<Ref<T>>, cs: seq<Cmd<T>>): seq<Ref<T>>
    decreases |cs|
  {
    if cs == [] then s else ExecAll(Exec(s, cs[0]), cs[1..])
  }

  /** One empty list. */
  function Start<T>(): seq<Ref<T>> {
    [Ref([], false)]
  }

  /** A statement of which the plain sequences already tell that it reveals nothing left in a trie. */
  predicate SafeCall<T>(v: Ref<T>, c: Cmd<T>) {
    match c
    case Call(_, op) => Safe(v.elems, op)
    case With(_, calls) => SafeAll(v.elems, calls)
    case Mutable(_) => true
    case Immutable(_) => true
  }

  predicate SafeCmd<T>(s: seq<Ref<T>>, c: Cmd<T>) {
    c.h < |s| ==> SafeCall(s[c.h], c)
  }

  predicate SafeProgram<T>(s: seq<Ref<T>>, cs: seq<Cmd<T>>)
    decreases |cs|
  {
    cs == [] || (SafeCmd(s, cs[0]) && SafeProgram(Exec(s, cs[0]), cs[1..]))
  }

  /** Statements never change what a variable holding an immutable list stands for. */
  lemma {:induction false} ImmutableForever<T>(s: seq<Ref<T>>, cs: seq<Cmd<T>>, k: nat)
    requires k < |s| && !s[k].mutable
    ensures k < |ExecAll(s, cs)| && ExecAll(s, cs)[k] == s[k]
    decreases |cs|
  {
    if cs != [] { ImmutableForever(Exec(s, cs[0]), cs[1..], k); }
  }

  // ---- Programs that are safe -------------------------------------------------------------------------------------

  ghost predicate Defined<T>(m: seq<Option<T>>) {
    forall i | 0 <= i < |m| :: m[i].Some?
  }

  /** A call that writes defined values only, at an index up to the size, and lengthens by what it writes. */
  ghost predicate Plain<T>(m: seq<Option<T>>, op: Op<T>) {
    match op
    case SetOp(index, v) => v.Some? && Wrapped(|m|, index) <= |m|
    case PushOp(values) => Defined(values)
    case PopOp => true
    case SizeOp(n) => Bound(|m|, n) <= |m|
  }

  ghost predicate PlainAll<T>(m: seq<Option<T>>, calls: seq<Op<T>>)
    decreases |calls|
  {
    calls == [] || (Plain(m, calls[0]) && PlainAll(Applied(m, calls[0]), calls[1..]))
  }

  ghost predicate PlainCmd<T>(s: seq<Ref<T>>, c: Cmd<T>) {
    c.h < |s| ==>
      (c.Call? ==> Plain(s[c.h].elems, c.op)) && (c.With? ==> PlainAll(s[c.h].elems, c.calls))
  }

  ghost predicate PlainProgram<T>(s: seq<Ref<T>>, cs: seq<Cmd<T>>)
    decreases |cs|
  {
    cs == [] || (PlainCmd(s, cs[0]) && PlainProgram(Exec(s, cs[0]), cs[1..]))
  }

  lemma PlainIsSafe<T>(m: seq<Option<T>>, op: Op<T>)
    requires Defined(m) && Plain(m, op)
    ensures Safe(m, op) && Defined(Applied(m, op))
  {
  }

  lemma {:induction false} PlainAllSafe<T>(m: seq<Option<T>>, calls: seq<Op<T>>)
    requires Defined(m) && PlainAll(m, calls)
    ensures SafeAll(m, calls) && Defined(AppliedAll(m, calls))
    decreases |calls|
  {
    hide Plain, Safe, Applied, Defined;
    if calls != [] {
      PlainIsSafe(m, calls[0]);
      PlainAllSafe(Applied(m, calls[0]), calls[1..]);
    }
  }

  ghost predicate AllDefined<T>(s: seq<Ref<T>>) {
    forall k | 0 <= k < |s| :: Defined(s[k].elems)
  }

  /** A program of such calls is safe. */
  lemma {:induction false} PlainProgramSafe<T>(s: seq<Ref<T>>, cs: seq<Cmd<T>>)
    requires AllDefined(s) && PlainProgram(s, cs)
    ensures SafeProgram(s, cs) && AllDefined(ExecAll(s, cs))
    decreases |cs|
  {
    hide Plain, Safe, SafeAll, PlainAll, Applied, AppliedAll, Defined;
    if cs != [] {
      if cs[0].h < |s| && cs[0].Call? { PlainIsSafe(s[cs[0].h].elems, cs[0].op); }
      if cs[0].h < |s| && cs[0].With? { PlainAllSafe(s[cs[0].h].elems, cs[0].calls); }
      PlainProgramSafe(Exec(s, cs[0]), cs[1..]);
    }
  }

  // ---- What is seen -----------------------------------------------------------------------------------------------

  /** A variable, with what its list shows of its trie. */
  datatype Seen<T> = Seen(view: View<T>, mutable: bool)

  function ValueOf<T>(v: Seen<T>): Ref<T> {
    Ref(v.view.Elems(), v.mutable)
  }

  function Values<T>(s: seq<Seen<T>>): (r: seq<Ref<T>>)
    ensures |r| == |s| && forall k | 0 <= k < |s| :: r[k] == ValueOf(s[k])
  {
    seq(|s|, k requires 0 <= k < |s| => ValueOf(s[k]))
  }

  /** From what a list shows, x, a statement makes y; views are those between the calls of `withMutations`. */
  ghost predicate Did<T>(x: View<T>, c: Cmd<T>, views: seq<View<T>>, y: View<T>) {
    match c
    case Call(_, op) => y.Elems() == Outcome(x, op)
    case With(_, calls) => Traced(views, calls) && views[0] == x && y.Elems() == views[|calls|].Elems()
    case Mutable(_) => y == x
    case Immutable(_) => y == x
  }

  /** The statement reveals nothing left in a trie. */
  ghost predicate Faithfully<T>(x: View<T>, c: Cmd<T>, views: seq<View<T>>) {
    match c
    case Call(_, op) => Faithful(x, op)
    case With(_, calls) => |calls| <= |views| && AllFaithful(views, calls)
    case Mutable(_) => true
    case Immutable(_) => true
  }

  datatype Step<T> = Step(views: seq<View<T>>, result: Seen<T>)

  /** A statement of a program takes the variables s to s'. */
  ghost predicate Stepped<T>(s: seq<Seen<T>>, c: Cmd<T>, step: Step<T>, s': seq<Seen<T>>) {
    if c.h >= |s| then s' == s
    else
      var v, r := s[c.h], step.result;
      && v.view.Ok() && Did(v.view, c, step.views, r.view) && r.mutable == After(ValueOf(v), c).mutable
      && s' == Placed(s, c, v.mutable, r)
  }

  ghost predicate FaithfulStep<T>(s: seq<Seen<T>>, c: Cmd<T>, step: Step<T>) {
    c.h < |s| ==> Faithfully(s[c.h].view, c, step.views)
  }

  lemma DidAfter<T>(v: Seen<T>, c: Cmd<T>, views: seq<View<T>>, y: View<T>)
    requires v.view.Ok() && Did(v.view, c, views, y)
    ensures Faithfully(v.view, c, views) ==> y.Elems() == After(ValueOf(v), c).elems
    ensures c.Call? && y.Elems() == After(ValueOf(v), c).elems ==> Faithfully(v.view, c, views)
    ensures SafeCall(ValueOf(v), c) ==> Faithfully(v.view, c, views)
  {
    hide Outcome, Applied, Faithful, AllFaithful, Safe, View.Ok, View.Elems, Traced;
    match c
    case Call(_, op) =>
      OutcomeIff(v.view, op);
      if Safe(v.view.Elems(), op) { SafeIsFaithful(v.view, op); }
    case With(_, calls) =>
      TracedLength(views, calls);
      TracedApplied(views, calls);
    case Mutable(_) =>
    case Immutable(_) =>
  }

  lemma TracedLength<T>(views: seq<View<T>>, calls: seq<Op<T>>)
    requires Traced(views, calls)
    ensures |views| == |calls| + 1
  {
  }

  /** A faithful statement means what it means on plain sequences, a call exactly if it is faithful; safe ones are. */
  lemma StepExec<T>(s: seq<Seen<T>>, c: Cmd<T>, step: Step<T>, s': seq<Seen<T>>)
    requires Stepped(s, c, step, s')
    ensures FaithfulStep(s, c, step) ==> Values(s') == Exec(Values(s), c)
    ensures c.Call? ==> (Values(s') == Exec(Values(s), c) <==> FaithfulStep(s, c, step))
    ensures SafeCmd(Values(s), c) ==> FaithfulStep(s, c, step)
  {
    hide Did, Faithfully, SafeCall, After, View.Elems, View.Ok;
    if c.h < |s| {
      DidAfter(s[c.h], c, step.views, step.result.view);
      var k := if s[c.h].mutable || c.Immutable? then c.h else |s|;
      var a, b := Values(s'), Exec(Values(s), c);
      assert a[k] == ValueOf(step.result) && b[k] == After(ValueOf(s[c.h]), c);
    }
  }

  /** A run of a program, with all that is seen. */
  ghost predicate IsRun<T>(ss: seq<seq<Seen<T>>>, steps: seq<Step<T>>, cs: seq<Cmd<T>>) {
    && |ss| == |cs| + 1 && |steps| == |cs| && Values(ss[0]) == Start()
    && forall k | 0 <= k < |cs| :: Stepped(ss[k], cs[k], steps[k], ss[k + 1])
  }

  ghost predicate FaithfulTo<T>(ss: seq<seq<Seen<T>>>, steps: seq<Step<T>>, cs: seq<Cmd<T>>, i: nat)
    requires i <= |cs| && i <= |ss| && i <= |steps|
  {
    forall k | 0 <= k < i :: FaithfulStep(ss[k], cs[k], steps[k])
  }

  lemma {:induction false} ExecLast<T>(s: seq<Ref<T>>, cs: seq<Cmd<T>>)
    requires cs != []
    ensures ExecAll(s, cs) == Exec(ExecAll(s, cs[..|cs| - 1]), cs[|cs| - 1])
    decreases |cs|
  {
    hide Exec;
    if |cs| > 1 {
      ExecLast(Exec(s, cs[0]), cs[1..]);
      assert cs[1..][..|cs| - 2] == cs[..|cs| - 1][1..];
    }
  }

  /** Every run means what the program means on plain sequences up to its first statement that is not faithful, and if
      that one is a call, it does not right after it. */
  lemma {:induction false} RunAgrees<T>(ss: seq<seq<Seen<T>>>, steps: seq<Step<T>>, cs: seq<Cmd<T>>, i: nat)
    requires IsRun(ss, steps, cs) && i <= |cs| && FaithfulTo(ss, steps, cs, i)
    ensures Values(ss[i]) == ExecAll(Start(), cs[..i])
    ensures i < |cs| && cs[i].Call? && !FaithfulStep(ss[i], cs[i], steps[i]) ==>
      Values(ss[i + 1]) != ExecAll(Start(), cs[..i + 1])
  {
    hide Stepped, FaithfulStep, Values, Exec;
    if i > 0 {
      RunAgrees(ss, steps, cs, i - 1);
      assert Stepped(ss[i - 1], cs[i - 1], steps[i - 1], ss[i]) && FaithfulStep(ss[i - 1], cs[i - 1], steps[i - 1]);
      StepExec(ss[i - 1], cs[i - 1], steps[i - 1], ss[i]);
      ExecLast(Start(), cs[..i]);
      assert cs[..i][..i - 1] == cs[..i - 1];
    }
    if i < |cs| {
      assert Stepped(ss[i], cs[i], steps[i], ss[i + 1]);
      StepExec(ss[i], cs[i], steps[i], ss[i + 1]);
      ExecLast(Start(), cs[..i + 1]);
      assert cs[..i + 1][..i] == cs[..i];
    }
  }

  /** Every run of a safe program is faithful, so at its end each variable stands for what the program makes of plain
      sequences. */
  lemma SafeRun<T>(ss: seq<seq<Seen<T>>>, steps: seq<Step<T>>, cs: seq<Cmd<T>>)
    requires IsRun(ss, steps, cs) && SafeProgram(Start(), cs)
    ensures FaithfulTo(ss, steps, cs, |cs|) && Values(ss[|cs|]) == ExecAll(Start(), cs)
  {
    hide IsRun, FaithfulStep;
    SafeTo(ss, steps, cs, |cs|);
    assert cs[..|cs|] == cs;
    RunLengths(ss, steps, cs);
    RunAgrees(ss, steps, cs, |cs|);
  }

  lemma RunLengths<T>(ss: seq<seq<Seen<T>>>, steps: seq<Step<T>>, cs: seq<Cmd<T>>)
    requires IsRun(ss, steps, cs)
    ensures |ss| == |cs| + 1 && |steps| == |cs|
  {
  }

  lemma {:induction false} SafeTo<T>(ss: seq<seq<Seen<T>>>, steps: seq<Step<T>>, cs: seq<Cmd<T>>, i: nat)
    requires IsRun(ss, steps, cs) && SafeProgram(Start(), cs) && i <= |cs|
    ensures FaithfulTo(ss, steps, cs, i) && SafeProgram(ExecAll(Start(), cs[..i]), cs[i..])
  {
    hide Stepped, FaithfulStep, Values, Exec, SafeCmd;
    if i == 0 {
      assert cs[..0] == [] && cs[0..] == cs;
    } else {
      SafeTo(ss, steps, cs, i - 1);
      RunAgrees(ss, steps, cs, i - 1);
      assert Stepped(ss[i - 1], cs[i - 1], steps[i - 1], ss[i]) && cs[i - 1..][0] == cs[i - 1];
      StepExec(ss[i - 1], cs[i - 1], steps[i - 1], ss[i]);
      ExecLast(Start(), cs[..i]);
      assert cs[..i][..i - 1] == cs[..i - 1] && cs[i - 1..][1..] == cs[i..];
    }
  }

  /** Whatever statements reveal, they never change an immutable variable. */
  lemma {:induction false} NeverChanges<T>(ss: seq<seq<Seen<T>>>, steps: seq<Step<T>>, cs: seq<Cmd<T>>, i: nat, j: nat,
                                           k: nat)
    requires IsRun(ss, steps, cs) && i <= j <= |cs| && k < |ss[i]| && !ss[i][k].mutable
    ensures k < |ss[j]| && ss[j][k] == ss[i][k]
  {
    if i < j {
      NeverChanges(ss, steps, cs, i, j - 1, k);
      assert Stepped(ss[j - 1], cs[j - 1], steps[j - 1], ss[j]);
      KeepsImmutable(ss[j - 1], cs[j - 1], steps[j - 1], ss[j], k);
    }
  }

  lemma KeepsImmutable<T>(s: seq<Seen<T>>, c: Cmd<T>, step: Step<T>, s': seq<Seen<T>>, k: nat)
    requires Stepped(s, c, step, s') && k < |s| && !s[k].mutable
    ensures k < |s'| && s'[k] == s[k]
  {
  }

  // ---- The lists --------------------------------------------------------------------------------------------------

  /** Nothing that x may write in place is reachable from y. */
  ghost predicate Apart<T>(x: List<T>, y: List<T>)
    reads x, y
  {
    x.ownerID != null ==>
      x != y && y.ownerID != x.ownerID && forall n | n in y.nodes :: n.ownerID != x.ownerID
  }

  ghost predicate Stands<T>(x: List<T>, v: Seen<T>)
    reads x, x.nodes
  {
    x.Valid() && x.View() == v.view && (x.ownerID != null <==> v.mutable)
  }

  ghost predicate World<T>(lists: seq<List<T>>, s: seq<Seen<T>>)
    reads lists, set x, n | x in lists && n in x.nodes :: n
  {
    && |lists| == |s|
    && (forall k | 0 <= k < |s| :: Stands(lists[k], s[k]))
    && forall j, k | 0 <= j < |s| && 0 <= k < |s| && j != k :: Apart(lists[j], lists[k])
  }

  /** One call, on the list alone. */
  method Perform<T>(x: List<T>, c: Cmd<T>, ghost v: Seen<T>) returns (r: List<T>, ghost step: Step<T>)
    requires Stands(x, v)
    modifies x.Writable()
    ensures Stands(r, step.result) && v.view.Ok() && Did(v.view, c, step.views, step.result.view)
    ensures step.result.mutable == After(ValueOf(v), c).mutable
    ensures if v.mutable || c.Immutable? then r == x else r == x || fresh(r)
    ensures r.ownerID == null || r.ownerID == old(x.ownerID) || fresh(r.ownerID)
    ensures forall n | n in r.nodes && n !in old(x.nodes) ::
      fresh(n) && (n.ownerID == null || n.ownerID == old(x.ownerID) || fresh(n.ownerID))
  {
    hide Rep, ViewOf, Outcome, Applied, Faithful, Traced;
    x.Facts();
    ghost var views := [];
    match c {
      case Call(_, op) => r := x.Apply(op);
      case With(_, calls) => r, views := x.WithMutations(calls);
      case Mutable(_) => r := x.AsMutable();
      case Immutable(_) => r := x.EnsureOwner(null);
    }
    r.Facts();
    step := Step(views, Seen(r.View(), r.ownerID != null));
  }

  lemma MutableIs<T>(x: List<T>, v: Seen<T>)
    requires Stands(x, v)
    ensures x.ownerID != null <==> v.mutable
  {
  }

  lemma NoSuchVariable<T>(s: seq<Seen<T>>, c: Cmd<T>, step: Step<T>)
    requires c.h >= |s|
    ensures Stepped(s, c, step, s)
  {
  }

  lemma SteppedTo<T>(s: seq<Seen<T>>, c: Cmd<T>, step: Step<T>)
    requires c.h < |s| && s[c.h].view.Ok() && Did(s[c.h].view, c, step.views, step.result.view)
    requires step.result.mutable == After(ValueOf(s[c.h]), c).mutable
    ensures Stepped(s, c, step, Placed(s, c, s[c.h].mutable, step.result))
  {
  }

  /** One statement of a program. Whatever it reveals in its result, no other variable is touched. */
  method Execute<T>(lists: seq<List<T>>, c: Cmd<T>, ghost s: seq<Seen<T>>)
    returns (lists': seq<List<T>>, ghost s': seq<Seen<T>>, ghost step: Step<T>)
    requires World(lists, s)
    modifies if c.h < |lists| then lists[c.h].Writable() else {}
    ensures World(lists', s') && Stepped(s, c, step, s')
    ensures forall x | x in lists' && x !in lists :: fresh(x)
    ensures forall x, n | x in lists' && n in x.nodes :: fresh(n) || exists y | y in lists :: n in old(y.nodes)
  {
    hide Rep, List.Valid, List.View, Did, After, Stands, Stepped, View.Ok, ValueOf;
    if c.h >= |lists| {
      step := Step([], Seen(View(0, 1, [], []), false));
      NoSuchVariable(s, c, step);
      return lists, s, step;
    }
    var x := lists[c.h];
    var inPlace := x.ownerID != null;
    assert Stands(x, s[c.h]);
    MutableIs(x, s[c.h]);
    var r;
    r, step := Perform(x, c, s[c.h]);
    s' := Placed(s, c, s[c.h].mutable, step.result);
    SteppedTo(s, c, step);
    lists' := if inPlace || c.Immutable? then lists else lists + [r];
    forall k | 0 <= k < |s| && (k != c.h || !inPlace)
      ensures Stands(lists[k], s[k]) && unchanged(lists[k])
    {
      assert old(Stands(lists[k], s[k]));
      assert k != c.h ==> old(Apart(x, lists[k]));
    }
    assert forall k | 0 <= k < |s'| :: Stands(lists'[k], s'[k]);
    forall j, k | 0 <= j < |s'| && 0 <= k < |s'| && j != k
      ensures Apart(lists'[j], lists'[k])
    {
      if j < |s| && k < |s| { assert old(Apart(lists[j], lists[k])); }
    }
  }

  /** Every program: its variables are lists that stand for what a run of it shows. A run of a safe program shows what
      the program makes of plain sequences. */
  method Run<T>(cs: seq<Cmd<T>>)
    returns (lists: seq<List<T>>, ghost ss: seq<seq<Seen<T>>>, ghost steps: seq<Step<T>>)
    ensures IsRun(ss, steps, cs) && World(lists, ss[|cs|])
    ensures SafeProgram(Start(), cs) ==> Values(ss[|cs|]) == ExecAll(Start(), cs)
  {
    hide Rep, ViewOf, Exec, List.Valid, Stepped;
    var empty := new List<T>.Empty();
    empty.Facts();
    lists := [empty];
    ss, steps := [[Seen(empty.View(), false)]], [];
    assert Values(ss[0]) == Start();
    assert World(lists, ss[0]);
    hide World, Values;
    var k := 0;
    while k < |cs|
      invariant 0 <= k <= |cs| && |ss| == k + 1 && |steps| == k && World(lists, ss[k])
      invariant Values(ss[0]) == Start() && forall j | 0 <= j < k :: Stepped(ss[j], cs[j], steps[j], ss[j + 1])
      invariant forall x | x in lists :: fresh(x)
      invariant forall x, n | x in lists && n in x.nodes :: fresh(n)
    {
      ghost var s, step;
      forall x, n | x in lists && n in x.Writable() ensures fresh(n) {}
      lists, s, step := Execute(lists, cs[k], ss[k]);
      ss, steps := ss + [s], steps + [step];
      k := k + 1;
    }
    if SafeProgram(Start(), cs) { SafeRun(ss, steps, cs); }
  }
}
