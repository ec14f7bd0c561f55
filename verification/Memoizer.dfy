/** A memoizer of a pure function: the argument tree, the results by id and, with a limit, the queue that drops them. */
module Memoizer {
  import ArgumentTree
  import opened LruQueue

  /** Each id has the result of its arguments. */
  ghost predicate Results<Arg, R>(results: map<nat, R>, args: map<nat, seq<Arg>>, original: seq<Arg> -> R) {
    results.Keys == args.Keys && forall id | id in results :: results[id] == original(args[id])
  }

  lemma ResultAdded<Arg, R>(results: map<nat, R>, args: map<nat, seq<Arg>>, original: seq<Arg> -> R, id: nat,
      t: seq<Arg>)
    requires Results(results, args, original)
    ensures Results(results[id := original(t)], args[id := t], original)
  {
  }

  lemma ResultRemoved<Arg, R>(results: map<nat, R>, args: map<nat, seq<Arg>>, original: seq<Arg> -> R, id: nat)
    requires Results(results, args, original)
    ensures Results(results - {id}, args - {id}, original)
  {
  }

  // ---- The ids of the queue and the arguments they stand for ------------------------------------------------------

  function Image<A(==), B>(s: seq<A>, m: map<A, B>): seq<B> {
    if s == [] then []
    else Image(s[..|s| - 1], m) + if s[|s| - 1] in m then [m[s[|s| - 1]]] else []
  }

  ghost predicate Injective<A, B>(m: map<A, B>) {
    forall a, b | a in m && b in m && m[a] == m[b] :: a == b
  }

  lemma ImagePush<A, B>(s: seq<A>, a: A, m: map<A, B>)
    ensures Image(s + [a], m) == if a in m then Image(s, m) + [m[a]] else Image(s, m)
  {
    assert (s + [a])[..|s|] == s;
  }

  lemma {:induction false} ImageWithout<A, B>(s: seq<A>, a: A, m: map<A, B>)
    requires Injective(m) && a in m
    ensures Image(Without(s, a), m) == Without(Image(s, m), m[a])
  {
    if s != [] {
      var t, x := s[..|s| - 1], s[|s| - 1];
      assert s == t + [x];
      ImageWithout(t, a, m);
      hide Image, Without, Injective;
      WithoutPush(t, x, a);
      ImagePush(t, x, m);
      ImagePush(Without(t, a), x, m);
      if x in m {
        WithoutPush(Image(t, m), m[x], m[a]);
        SameImage(m, x, a);
      }
    }
  }

  lemma SameImage<A, B>(m: map<A, B>, x: A, a: A)
    requires Injective(m) && x in m && a in m
    ensures m[x] == m[a] <==> x == a
  {
  }

  lemma {:induction false} ImageSame<A, B>(s: seq<A>, m: map<A, B>, n: map<A, B>)
    requires forall a | a in s :: (a in m <==> a in n) && (a in m ==> m[a] == n[a])
    ensures Image(s, m) == Image(s, n)
  {
    if s != [] { ImageSame(s[..|s| - 1], m, n); }
  }

  lemma {:induction false} ImageTail<A, B>(s: seq<A>, m: map<A, B>)
    requires forall a | a in s :: a in m
    ensures |Image(s, m)| == |s| && (s != [] ==> Image(s, m)[1..] == Image(s[1..], m))
  {
    if s != [] {
      var n := |s| - 1;
      ImageTail(s[..n], m);
      if n > 0 {
        assert s[1..] == s[..n][1..] + [s[n]];
        ImagePush(s[..n][1..], s[n], m);
      }
    }
  }

  lemma {:induction false} ImageHas<A, B>(s: seq<A>, m: map<A, B>, b: B)
    ensures b in Image(s, m) <==> exists a :: a in s && a in m && m[a] == b
  {
    if s != [] {
      var t, x := s[..|s| - 1], s[|s| - 1];
      ImageHas(t, m, b);
      assert s == t + [x];
      if x in m && m[x] == b { assert x in s; }
      assert b in Image(s, m) <==> b in Image(t, m) || (x in m && m[x] == b);
    }
  }

  /** A hit of id in the queue, and what it drops, seen as arguments. */
  lemma HitImage<A, B>(s: seq<A>, id: A, m: map<A, B>, rest: map<A, B>, limit: nat)
    requires Injective(m) && id in m && (forall a | a in s :: a in m)
    requires var t := Touched(s, id);
      if |t| > limit then rest == m - {t[0]} && t[0] !in t[1..] else rest == m
    ensures Image(Trimmed(Touched(s, id), limit), rest) == Trimmed(Touched(Image(s, m), m[id]), limit)
  {
    hide Image, Without;
    var t := Touched(s, id);
    ImageWithout(s, id, m);
    ImagePush(Without(s, id), id, m);
    assert Image(t, m) == Touched(Image(s, m), m[id]);
    forall a | a in t ensures a in m { WithoutMembers(s, id, a); }
    ImageTail(t, m);
    if |t| > limit { ImageSame(t[1..], m, rest); }
  }

  /** An id that is deleted, seen as arguments. */
  lemma DropImage<A, B>(s: seq<A>, id: A, m: map<A, B>)
    requires Injective(m) && id in m
    ensures Image(Without(s, id), m - {id}) == Without(Image(s, m), m[id])
  {
    hide Image, Without;
    ImageWithout(s, id, m);
    forall a | a in Without(s, id) ensures a != id { WithoutMembers(s, id, a); }
    ImageSame(Without(s, id), m, m - {id});
  }

  class Memo<Arg(!new,==), R> {
    /** The function, and the calls of its memoized form that it makes, which are lower in some rank. */
    const original: seq<Arg> -> R
    const nested: seq<Arg> -> seq<seq<Arg>>
    ghost const rank: seq<Arg> -> nat
    /** The option `max`; 0 stands for none, and then the queue is not used. */
    const max: nat
    const tree: ArgumentTree.Tree<Arg>
    const queue: LruQueue.Queue<nat>
    var results: map<nat, R>
    /** The arguments that the original has been called for. */
    ghost var computed: seq<seq<Arg>>

    ghost predicate WellFounded() {
      forall a: seq<Arg>, b: seq<Arg> | b in nested(a) :: rank(b) < rank(a)
    }

    /** Each list of arguments with an id has its result, and with a limit the queue knows the same ids. */
    ghost predicate Valid()
      reads `results, tree, tree.nodes.Values, queue
    {
      && tree.Valid() && tree.OneEach() && queue.Valid() && queue.limit == max
      && Results(results, tree.args, original)
      && (max > 0 ==> queue.index.Keys == results.Keys)
    }

    constructor (original: seq<Arg> -> R, nested: seq<Arg> -> seq<seq<Arg>>, ghost rank: seq<Arg> -> nat, max: nat)
      ensures Valid() && results == map[] && this.original == original && this.nested == nested && this.rank == rank
        && this.max == max && computed == []
      ensures fresh(tree) && fresh(queue) && fresh(tree.nodes.Values)
    {
      hide ArgumentTree.Tree.Valid, LruQueue.Queue.Valid;
      this.original, this.nested, this.rank, this.max := original, nested, rank, max;
      tree := new ArgumentTree.Tree<Arg>();
      queue := new LruQueue.Queue<nat>(max);
      results, computed := map[], [];
    }

    /** The remembered arguments in the order of their last use, when there is a limit. */
    ghost function Recent(): seq<seq<Arg>>
      reads tree, queue
    {
      Image(queue.Contents(), tree.args)
    }

    /** The reference: what is remembered after a call for t, when s was remembered before. The calls that the original
        makes come first, if it is called at all; then t is the last one used, and the one not used for longest goes if
        there are too many. */
    ghost function Called(s: seq<seq<Arg>>, t: seq<Arg>): seq<seq<Arg>>
      requires WellFounded()
      decreases rank(t), 1, 0
    {
      Trimmed(Touched(if t in s then s else CalledAll(s, t, nested(t)), t), max)
    }

    ghost function CalledAll(s: seq<seq<Arg>>, t: seq<Arg>, calls: seq<seq<Arg>>): seq<seq<Arg>>
      requires WellFounded() && forall c | c in calls :: rank(c) < rank(t)
      decreases rank(t), 0, |calls|
    {
      if calls == [] then s else Called(CalledAll(s, t, calls[..|calls| - 1]), calls[|calls| - 1])
    }

    /** The calls of the original that a call for t leads to: none if t is remembered. */
    ghost function Computed(s: seq<seq<Arg>>, t: seq<Arg>): seq<seq<Arg>>
      requires WellFounded()
      decreases rank(t), 1, 0
    {
      if t in s then [] else ComputedAll(s, t, nested(t)) + [t]
    }

    ghost function ComputedAll(s: seq<seq<Arg>>, t: seq<Arg>, calls: seq<seq<Arg>>): seq<seq<Arg>>
      requires WellFounded() && forall c | c in calls :: rank(c) < rank(t)
      decreases rank(t), 0, |calls|
    {
      if calls == [] then []
      else
        var n := |calls| - 1;
        ComputedAll(s, t, calls[..n]) + Computed(CalledAll(s, t, calls[..n]), calls[n])
    }

    lemma CalledIs(s: seq<seq<Arg>>, t: seq<Arg>)
      requires WellFounded() && max > 0
      ensures t in s ==> Called(s, t) == Trimmed(Touched(s, t), max) && Computed(s, t) == []
      ensures t !in s ==>
        && Called(s, t) == Trimmed(Touched(CalledAll(s, t, nested(t)), t), max)
        && Computed(s, t) == ComputedAll(s, t, nested(t)) + [t]
      ensures Called(s, t) != [] && Called(s, t)[|Called(s, t)| - 1] == t
    {
      hide CalledAll, ComputedAll, Without;
    }

    lemma CallsOn(s: seq<seq<Arg>>, t: seq<Arg>, calls: seq<seq<Arg>>, i: nat)
      requires WellFounded() && i < |calls| && forall c | c in calls :: rank(c) < rank(t)
      ensures CalledAll(s, t, calls[..i + 1]) == Called(CalledAll(s, t, calls[..i]), calls[i])
      ensures ComputedAll(s, t, calls[..i + 1]) ==
        ComputedAll(s, t, calls[..i]) + Computed(CalledAll(s, t, calls[..i]), calls[i])
    {
      hide Called, Computed;
      assert calls[..i + 1][..i] == calls[..i];
    }

    lemma NoCalls(s: seq<seq<Arg>>, t: seq<Arg>)
      requires WellFounded()
      ensures CalledAll(s, t, []) == s && ComputedAll(s, t, []) == []
    {
    }

    lemma NestedLower(t: seq<Arg>)
      requires WellFounded()
      ensures forall c | c in nested(t) :: rank(c) < rank(t)
    {
    }

    /** Without a limit the original has been called once for each of its arguments that was not remembered, and what it
        called for them is remembered. */
    ghost predicate Once(before: set<seq<Arg>>, after: set<seq<Arg>>, calls: seq<seq<Arg>>) {
      && (forall i, j | 0 <= i < j < |calls| :: calls[i] != calls[j]) && (forall a | a in calls :: a !in before)
      && after == before + (set a | a in calls)
      && forall a, b | a in calls && b in nested(a) :: b in after
    }

    lemma OnceJoin(a: set<seq<Arg>>, b: set<seq<Arg>>, c: set<seq<Arg>>, x: seq<seq<Arg>>, y: seq<seq<Arg>>)
      requires Once(a, b, x) && Once(b, c, y)
      ensures Once(a, c, x + y)
    {
      var calls := x + y;
      forall i, j | 0 <= i < j < |calls| ensures calls[i] != calls[j] {
        if i < |x| <= j { assert calls[i] in b && calls[j] !in b; }
      }
    }

    lemma OnceMore(a: set<seq<Arg>>, b: set<seq<Arg>>, x: seq<seq<Arg>>, t: seq<Arg>)
      requires Once(a, b, x) && t !in b && forall c | c in nested(t) :: c in b
      ensures Once(a, b + {t}, x + [t])
    {
    }

    lemma OnceNone(a: set<seq<Arg>>)
      ensures Once(a, a, [])
    {
    }

    /** The arguments in that order are those with a result. */
    lemma Remembered(t: seq<Arg>)
      requires Valid() && max > 0
      ensures t in Recent() <==> t in tree.live
    {
      hide ArgumentTree.Tree.Valid, LruQueue.Queue.Valid, Image;
      ImageHas(queue.Contents(), tree.args, t);
      ResultsKeys();
      tree.LiveKnown(t);
      if t in tree.live { queue.ContentsAre(tree.live[t]); }
      if id: nat :| id in tree.args && tree.args[id] == t { tree.ArgsKnown(id); }
    }

    lemma ArgsDiffer()
      requires tree.OneEach()
      ensures Injective(tree.args)
    {
      hide ArgumentTree.Tree.Valid;
      forall a, b | a in tree.args && b in tree.args && tree.args[a] == tree.args[b] ensures a == b {
        tree.ArgsKnown(a);
        tree.ArgsKnown(b);
      }
    }

    /** The ids in the queue have arguments. */
    lemma ContentsKnown()
      requires queue.Valid() && queue.index.Keys <= tree.args.Keys
      ensures forall id | id in queue.Contents() :: id in queue.index && id in tree.args
    {
      hide LruQueue.Queue.Valid;
      forall id | id in queue.Contents() ensures id in queue.index { queue.ContentsAre(id); }
    }

    /** With a limit, no more results than that are kept. */
    lemma Bounded()
      requires Valid() && max > 0
      ensures |results| <= max
    {
      queue.CountIndex();
      assert |results| == |results.Keys| && |queue.index| == |queue.index.Keys|;
    }

    lemma ResultIs(id: nat)
      requires Results(results, tree.args, original) && id in results
      ensures id in tree.args && results[id] == original(tree.args[id])
    {
    }

    /** `delete`, for an id that has a result, with what the limit adds to it. */
    method Drop(id: nat)
      requires tree.Valid() && tree.OneEach() && queue.Valid() && queue.limit == max
      requires Results(results, tree.args, original)
      requires id in results && (max > 0 ==> queue.index.Keys - {id} == results.Keys - {id})
      modifies this`results, tree, tree.nodes.Values, queue
      ensures Valid() && results == old(results) - {id} && tree.nodes.Values <= old(tree.nodes.Values)
      ensures id in old(tree.args) && tree.args == old(tree.args) - {id}
      ensures tree.live == old(tree.live) - {old(tree.args[id])}
      ensures max > 0 ==> queue.Contents() == Without(old(queue.Contents()), id)
      ensures max > 0 ==> queue.index == old(queue.index) - {id}
    {
      hide ArgumentTree.Tree.Valid, LruQueue.Queue.Valid, Results;
      ResultsKeys();
      ResultRemoved(results, tree.args, original, id);
      var thrown := tree.Delete(id);
      results := results - {id};
      ResultsKeys();
      if max > 0 { queue.Delete(id); }
    }

    /** `delete` */
    method Delete(id: nat)
      requires Valid()
      modifies this`results, tree, tree.nodes.Values, queue
      ensures Valid() && results == old(results) - {id} && tree.nodes.Values <= old(tree.nodes.Values)
      ensures tree.live == if id in old(results) then old(tree.live) - {old(tree.args[id])} else old(tree.live)
      ensures max > 0 ==>
        Recent() == if id in old(results) then Without(old(Recent()), old(tree.args[id])) else old(Recent())
    {
      hide ArgumentTree.Tree.Valid, LruQueue.Queue.Valid, Results, Image, Without;
      ResultsKeys();
      ghost var s, args := queue.Contents(), tree.args;
      if id in results {
        ArgsDiffer();
        Drop(id);
        DropImage(s, id, args);
      }
    }

    /** `delete` of the memoized function, by its arguments. */
    method Forget(t: seq<Arg>)
      requires Valid()
      modifies this`results, tree, tree.nodes.Values, queue
      ensures Valid() && tree.live == old(tree.live) - {t} && tree.nodes.Values <= old(tree.nodes.Values)
      ensures max > 0 ==> Recent() == Without(old(Recent()), t)
    {
      hide ArgumentTree.Tree.Valid, LruQueue.Queue.Valid, Results, Image, Without;
      ResultsKeys();
      tree.LiveKnown(t);
      if max > 0 { Remembered(t); }
      var id := tree.Get(t);
      if id.Some? {
        Delete(id.value);
      } else {
        if max > 0 { WithoutAbsent(Recent(), t); }
      }
    }

    lemma ResultsKeys()
      requires Results(results, tree.args, original)
      ensures results.Keys == tree.args.Keys
    {
    }

    /** A hit of the queue, and the result it drops: what `max` does on `set` and `get`. */
    method Used(id: nat)
      requires tree.Valid() && tree.OneEach() && queue.Valid() && queue.limit == max
      requires Results(results, tree.args, original)
      requires id in results && (max > 0 ==> queue.index.Keys + {id} == results.Keys)
      modifies this`results, tree, tree.nodes.Values, queue
      ensures Valid() && fresh(tree.nodes.Values - old(tree.nodes.Values))
      ensures id in results && results[id] == old(results[id]) && tree.args[id] == old(tree.args[id])
      ensures tree.live.Keys <= old(tree.live.Keys)
      ensures max == 0 || id in old(queue.index) ==> tree.live == old(tree.live)
      ensures max > 0 ==> Recent() == Trimmed(Touched(old(Recent()), old(tree.args[id])), max)
    {
      hide ArgumentTree.Tree.Valid, LruQueue.Queue.Valid, Results, Image, Without;
      ResultsKeys();
      if max > 0 { Hit(id); }
    }

    /** The handler that `max` sets for `set` and `get`. */
    method Hit(id: nat)
      requires tree.Valid() && tree.OneEach() && queue.Valid() && queue.limit == max > 0
      requires Results(results, tree.args, original)
      requires id in tree.args && queue.index.Keys + {id} == results.Keys == tree.args.Keys
      modifies this`results, tree, tree.nodes.Values, queue
      ensures Valid() && fresh(tree.nodes.Values - old(tree.nodes.Values))
      ensures id in results && results[id] == old(results[id]) && tree.args[id] == old(tree.args[id])
      ensures tree.live.Keys <= old(tree.live.Keys) && (id in old(queue.index) ==> tree.live == old(tree.live))
      ensures Recent() == Trimmed(Touched(old(Recent()), old(tree.args[id])), max)
    {
      hide ArgumentTree.Tree.Valid, LruQueue.Queue.Valid, Results, Image, Without;
      ghost var s, args := queue.Contents(), tree.args;
      ArgsDiffer();
      ContentsKnown();
      var dropped := queue.Hit(id);
      if dropped.Some? {
        var d := dropped.value;
        queue.ContentsAre(d);
        tree.ArgsKnown(d);
        Drop(d);
        WithoutAbsent(Trimmed(Touched(s, id), max), d);
      }
      HitImage(s, id, args, tree.args, max);
    }

    /** The result of t, which has none, is kept. */
    method Keep(t: seq<Arg>, r: R)
      requires Valid() && t !in tree.live && r == original(t)
      modifies this`results, tree, tree.nodes.Values, queue
      ensures Valid() && fresh(tree.nodes.Values - old(tree.nodes.Values))
      ensures t in tree.live && tree.live.Keys <= old(tree.live.Keys) + {t}
      ensures if max > 0 then Recent() == Trimmed(Touched(old(Recent()), t), max)
              else tree.live == old(tree.live)[t := tree.live[t]]
    {
      hide ArgumentTree.Tree.Valid, LruQueue.Queue.Valid, Results, Image, Without;
      ghost var args := tree.args;
      ResultsKeys();
      if max > 0 { ContentsKnown(); }
      var id := tree.Set(t);
      if max > 0 { ImageSame(queue.Contents(), args, tree.args); }
      ResultAdded(results, args, original, id, t);
      results := results[id := r];
      ResultsKeys();
      Used(id);
      ResultsKeys();
      tree.ArgsKnown(id);
    }

    /** The memoized function. */
    method Call(t: seq<Arg>) returns (r: R)
      requires Valid() && WellFounded()
      modifies this`results, this`computed, tree, tree.nodes.Values, queue
      ensures Valid() && fresh(tree.nodes.Values - old(tree.nodes.Values))
      ensures r == original(t)
      ensures t in tree.live && (max > 0 ==> |results| <= max)
      ensures forall a | a in tree.live :: a in old(tree.live) || rank(a) <= rank(t)
      ensures t in old(tree.live) ==> tree.live == old(tree.live) && (max > 0 ==> computed == old(computed))
      ensures t !in old(tree.live) ==> old(computed) < computed && computed[|computed| - 1] == t
      ensures max > 0 ==> Recent() != [] && Recent()[|Recent()| - 1] == t
      ensures old(computed) <= computed
      ensures if max > 0 then computed == old(computed) + Computed(old(Recent()), t)
              else Once(old(tree.live.Keys), tree.live.Keys, computed[|old(computed)|..])
      ensures if max > 0 then Recent() == Called(old(Recent()), t)
              else forall a | a in old(tree.live) :: a in tree.live && tree.live[a] == old(tree.live[a])
      decreases rank(t), 2
    {
      hide *;
      OnceNone(tree.live.Keys);
      assert computed[|computed|..] == [];
      if max > 0 {
        CalledIs(Recent(), t);
        Remembered(t);
      }
      TreeValid();
      if t in tree.live { LiveResult(t); }
      var n := tree.Get(t);
      if n.Some? && n.value in results {
        r := Found(t, n.value);
      } else {
        r := Compute(t);
      }
    }

    lemma TreeValid()
      requires Valid()
      ensures tree.Valid()
    {
    }

    lemma LiveResult(t: seq<Arg>)
      requires Valid() && t in tree.live
      ensures tree.live[t] in results
    {
      hide ArgumentTree.Tree.Valid, LruQueue.Queue.Valid, Results;
      ResultsKeys();
      tree.LiveKnown(t);
    }

    /** The result that t has under id. */
    method Found(t: seq<Arg>, id: nat) returns (r: R)
      requires Valid() && t in tree.live && id == tree.live[t] && id in results
      modifies this`results, tree, tree.nodes.Values, queue
      ensures Valid() && fresh(tree.nodes.Values - old(tree.nodes.Values))
      ensures r == original(t) && tree.live == old(tree.live) && (max > 0 ==> |results| <= max)
      ensures max > 0 ==> Recent() == Trimmed(Touched(old(Recent()), t), max)
    {
      hide ArgumentTree.Tree.Valid, LruQueue.Queue.Valid, Results, Image, Without, Touched, Trimmed;
      ResultsKeys();
      tree.LiveKnown(t);
      ResultIs(id);
      Used(id);
      if max > 0 { Bounded(); }
      r := results[id];
    }

    /** The call of the original for a t without a result. No nested call is for t itself, so t still has no id
        afterwards and the error for circular calls is not raised. */
    method Compute(t: seq<Arg>) returns (r: R)
      requires Valid() && WellFounded() && t !in tree.live
      modifies this`results, this`computed, tree, tree.nodes.Values, queue
      ensures Valid() && fresh(tree.nodes.Values - old(tree.nodes.Values))
      ensures r == original(t) && t in tree.live && (max > 0 ==> |results| <= max)
      ensures forall a | a in tree.live :: a in old(tree.live) || rank(a) <= rank(t)
      ensures old(computed) < computed && computed[|computed| - 1] == t
      ensures if max > 0 then computed == old(computed) + (ComputedAll(old(Recent()), t, nested(t)) + [t])
              else Once(old(tree.live.Keys), tree.live.Keys, computed[|old(computed)|..])
      ensures if max > 0 then Recent() == Trimmed(Touched(CalledAll(old(Recent()), t, nested(t)), t), max)
              else forall a | a in old(tree.live) :: a in tree.live && tree.live[a] == old(tree.live[a])
      decreases rank(t), 1
    {
      hide Valid, WellFounded, Recent, CalledAll, ComputedAll, Without, Once;
      CallNested(t);
      ghost var before, calls := tree.live.Keys, computed[|old(computed)|..];
      r := original(t);
      computed := computed + [t];
      Keep(t, r);
      assert computed[|old(computed)|..] == calls + [t];
      if max == 0 {
        OnceMore(old(tree.live.Keys), before, calls, t);
        assert tree.live.Keys == before + {t};
      }
      if max > 0 { Bounded(); }
    }

    /** The calls of the memoized function that the original makes while it computes its result for t. */
    method CallNested(t: seq<Arg>)
      requires Valid() && WellFounded()
      modifies this`results, this`computed, tree, tree.nodes.Values, queue
      ensures Valid() && fresh(tree.nodes.Values - old(tree.nodes.Values))
      ensures forall a | a in tree.live :: a in old(tree.live) || rank(a) < rank(t)
      ensures old(computed) <= computed
      ensures if max > 0 then computed == old(computed) + ComputedAll(old(Recent()), t, nested(t))
              else Once(old(tree.live.Keys), tree.live.Keys, computed[|old(computed)|..])
      ensures max == 0 ==> forall c | c in nested(t) :: c in tree.live
      ensures if max > 0 then Recent() == CalledAll(old(Recent()), t, nested(t))
              else forall a | a in old(tree.live) :: a in tree.live && tree.live[a] == old(tree.live[a])
      decreases rank(t), 0
    {
      hide Valid, Recent, Called, CalledAll, Computed, ComputedAll, Once, WellFounded;
      NestedLower(t);
      NoCalls(Recent(), t);
      var calls := nested(t);
      var i := 0;
      OnceNone(tree.live.Keys);
      assert computed[|computed|..] == [];
      while i < |calls|
        invariant i <= |calls| && Valid() && fresh(tree.nodes.Values - old(tree.nodes.Values))
        invariant forall a | a in tree.live :: a in old(tree.live) || rank(a) < rank(t)
        invariant old(computed) <= computed
        invariant if max > 0 then computed == old(computed) + ComputedAll(old(Recent()), t, calls[..i])
                  else Once(old(tree.live.Keys), tree.live.Keys, computed[|old(computed)|..])
        invariant max == 0 ==> forall c | c in calls[..i] :: c in tree.live
        invariant if max > 0 then Recent() == CalledAll(old(Recent()), t, calls[..i])
                  else forall a | a in old(tree.live) :: a in tree.live && tree.live[a] == old(tree.live[a])
      {
        assert calls[i] in nested(t) && calls[..i + 1] == calls[..i] + [calls[i]];
        CallsOn(old(Recent()), t, calls, i);
        ghost var known, had := tree.live.Keys, computed;
        var s := Call(calls[i]);
        assert computed[|old(computed)|..] == had[|old(computed)|..] + computed[|had|..];
        if max == 0 {
          OnceJoin(old(tree.live.Keys), known, tree.live.Keys, had[|old(computed)|..], computed[|had|..]);
        }
        i := i + 1;
      }
      assert calls[..i] == calls;
    }

    /** `clear` */
    method Clear()
      requires Valid()
      modifies this`results, tree, queue
      ensures Valid() && results == map[] && tree.live == map[] && tree.nodes == map[] && Recent() == []
    {
      hide ArgumentTree.Tree.Valid, LruQueue.Queue.Valid;
      tree.Clear();
      results := map[];
      queue.Clear();
    }
  }
}
