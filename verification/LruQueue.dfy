/** The queue that tells a bounded memoizer which result to drop. */
module LruQueue {
  import opened Options

  datatype Op<Id> = Hit(id: Id) | Delete(id: Id) | Clear

  /** The ids at indices up to hi, the least recent first. */
  function Listing<Id>(queue: map<nat, Id>, hi: nat): seq<Id>
    decreases hi
  {
    if hi == 0 then [] else Listing(queue, hi - 1) + if hi in queue then [queue[hi]] else []
  }

  // ---- The reference: ids in order of their last hit --------------------------------------------------------------

  function Without<Id(==)>(s: seq<Id>, id: Id): seq<Id> {
    if s == [] then []
    else Without(s[..|s| - 1], id) + if s[|s| - 1] == id then [] else [s[|s| - 1]]
  }

  function Touched<Id(==)>(s: seq<Id>, id: Id): seq<Id> {
    Without(s, id) + [id]
  }

  function Trimmed<Id>(s: seq<Id>, limit: nat): seq<Id> {
    if |s| > limit then s[1..] else s
  }

  function After<Id(==)>(s: seq<Id>, limit: nat, op: Op<Id>): seq<Id> {
    match op
    case Hit(id) => Trimmed(Touched(s, id), limit)
    case Delete(id) => Without(s, id)
    case Clear => []
  }

  function AfterAll<Id(==)>(limit: nat, ops: seq<Op<Id>>): seq<Id> {
    if ops == [] then [] else After(AfterAll(limit, ops[..|ops| - 1]), limit, ops[|ops| - 1])
  }

  /** When an id was last hit, or -1. */
  function LastHit<Id(==)>(ops: seq<Op<Id>>, id: Id): (k: int)
    ensures -1 <= k < |ops|
  {
    if ops == [] then -1
    else if ops[|ops| - 1] == Hit(id) then |ops| - 1
    else LastHit(ops[..|ops| - 1], id)
  }

  ghost predicate InOrder<Id>(s: seq<Id>, ops: seq<Op<Id>>) {
    && (forall i | 0 <= i < |s| :: LastHit(ops, s[i]) >= 0)
    && forall i, j | 0 <= i < j < |s| :: LastHit(ops, s[i]) < LastHit(ops, s[j])
  }

  /** Whatever the run, the ids are in the order of their last hits. */
  lemma {:induction false} ByRecency<Id>(limit: nat, ops: seq<Op<Id>>)
    ensures InOrder(AfterAll(limit, ops), ops)
  {
    if ops != [] {
      var before, op := ops[..|ops| - 1], ops[|ops| - 1];
      var s := AfterAll(limit, before);
      ByRecency(limit, before);
      if op.Hit? {
        OrderTouched(s, op.id, ops);
        OrderTrimmed(Touched(s, op.id), limit, ops);
      } else if op.Delete? {
        OrderWithout(s, op.id, before);
      }
    }
  }

  lemma {:induction false} OrderWithout<Id>(s: seq<Id>, id: Id, ops: seq<Op<Id>>)
    requires InOrder(s, ops)
    ensures InOrder(Without(s, id), ops)
  {
    if s != [] {
      var before, x := s[..|s| - 1], s[|s| - 1];
      OrderWithout(before, id, ops);
      forall y | y in Without(before, id) ensures LastHit(ops, y) < LastHit(ops, x) { WithoutMembers(before, id, y); }
    }
  }

  lemma OrderTouched<Id>(s: seq<Id>, id: Id, ops: seq<Op<Id>>)
    requires ops != [] && ops[|ops| - 1] == Hit(id) && InOrder(s, ops[..|ops| - 1])
    ensures InOrder(Touched(s, id), ops)
  {
    var before, rest := ops[..|ops| - 1], Without(s, id);
    OrderWithout(s, id, before);
    forall i | 0 <= i < |rest| ensures LastHit(ops, rest[i]) == LastHit(before, rest[i]) {
      WithoutMembers(s, id, rest[i]);
    }
  }

  lemma OrderTrimmed<Id>(s: seq<Id>, limit: nat, ops: seq<Op<Id>>)
    requires InOrder(s, ops)
    ensures InOrder(Trimmed(s, limit), ops)
  {
  }

  /** In a run of hits the ids are those hit last: an id that was hit and is not there was hit before each that is, and
      none is missing while the limit is not reached. */
  lemma {:induction false} MostRecent<Id>(limit: nat, ops: seq<Op<Id>>, x: Id)
    requires forall i | 0 <= i < |ops| :: ops[i].Hit?
    ensures |AfterAll(limit, ops)| <= limit
    ensures x !in AfterAll(limit, ops) && LastHit(ops, x) >= 0 ==>
      |AfterAll(limit, ops)| == limit && forall y | y in AfterAll(limit, ops) :: LastHit(ops, x) < LastHit(ops, y)
  {
    if ops != [] {
      var before, id := ops[..|ops| - 1], ops[|ops| - 1].id;
      var s := AfterAll(limit, before);
      ByRecency(limit, before);
      MostRecent(limit, before, x);
      TouchedSize(s, id, before);
      TouchedMembers(s, id);
      OrderTouched(s, id, ops);
      hide Touched, InOrder;
      var t := Touched(s, id);
      if x !in t {
        StaysOut(limit, ops, s, x);
      } else if x !in Trimmed(t, limit) {
        FirstOut(t, limit, ops, x);
      }
    }
  }

  lemma StaysOut<Id>(limit: nat, ops: seq<Op<Id>>, s: seq<Id>, x: Id)
    requires ops != [] && ops[|ops| - 1].Hit?
    requires LastHit(ops[..|ops| - 1], x) >= 0 ==>
      |s| == limit && forall y | y in s :: LastHit(ops[..|ops| - 1], x) < LastHit(ops[..|ops| - 1], y)
    requires var t := Touched(s, ops[|ops| - 1].id);
      && x !in t && (|s| == limit ==> |t| >= limit) && |t| <= limit + 1
      && forall y :: y in t <==> y in s || y == ops[|ops| - 1].id
    ensures var t := Trimmed(Touched(s, ops[|ops| - 1].id), limit);
      LastHit(ops, x) >= 0 ==> |t| == limit && forall y | y in t :: LastHit(ops, x) < LastHit(ops, y)
  {
    hide Touched;
    var id := ops[|ops| - 1].id;
    if LastHit(ops, x) >= 0 {
      assert x != id;
      forall y | y in Trimmed(Touched(s, id), limit) ensures LastHit(ops, x) < LastHit(ops, y) {
        assert y in Touched(s, id);
      }
    }
  }

  lemma FirstOut<Id>(t: seq<Id>, limit: nat, ops: seq<Op<Id>>, x: Id)
    requires InOrder(t, ops) && x in t && x !in Trimmed(t, limit) && |t| <= limit + 1
    ensures |Trimmed(t, limit)| == limit && forall y | y in Trimmed(t, limit) :: LastHit(ops, x) < LastHit(ops, y)
  {
    assert t == [t[0]] + t[1..];
  }

  lemma TouchedMembers<Id>(s: seq<Id>, id: Id)
    ensures forall x :: x in Touched(s, id) <==> x in s || x == id
  {
    forall x ensures x in Without(s, id) <==> x in s && x != id { WithoutMembers(s, id, x); }
  }

  lemma TouchedSize<Id>(s: seq<Id>, id: Id, ops: seq<Op<Id>>)
    requires InOrder(s, ops)
    ensures |Touched(s, id)| == if id in s then |s| else |s| + 1
  {
    WithoutSize(s, id, ops);
  }

  lemma {:induction false} WithoutSize<Id>(s: seq<Id>, id: Id, ops: seq<Op<Id>>)
    requires InOrder(s, ops)
    ensures |Without(s, id)| == if id in s then |s| - 1 else |s|
  {
    if s != [] { WithoutSize(s[..|s| - 1], id, ops); }
  }

  // ---- Indices and ids ----------------------------------------------------------------------------------------------

  /** Index-to-id and id-to-index are inverse, and indices run from 1 to the counter. */
  ghost predicate Inverse<Id>(queue: map<nat, Id>, index: map<Id, nat>, counter: nat) {
    && (forall i | i in queue :: 1 <= i <= counter && queue[i] in index && index[queue[i]] == i)
    && (forall id | id in index :: index[id] in queue && queue[index[id]] == id)
  }

  /** m is the smallest live index, and 1 when there is none. */
  ghost predicate Smallest<Id>(queue: map<nat, Id>, m: nat) {
    if queue == map[] then m == 1 else m in queue && forall i | i in queue :: m <= i
  }

  lemma {:induction false} ListingAt<Id>(queue: map<nat, Id>, hi: nat, k: nat) returns (i: nat)
    requires k < |Listing(queue, hi)|
    ensures 1 <= i <= hi && i in queue && queue[i] == Listing(queue, hi)[k] && k < i
    decreases hi
  {
    if k < |Listing(queue, hi - 1)| { i := ListingAt(queue, hi - 1, k); } else { i := hi; ListingSize(queue, hi - 1); }
  }

  lemma {:induction false} ListingSize<Id>(queue: map<nat, Id>, hi: nat)
    ensures |Listing(queue, hi)| <= hi
    decreases hi
  {
    if hi > 0 { ListingSize(queue, hi - 1); }
  }

  /** Every live index is listed. */
  lemma {:induction false} Listed<Id>(queue: map<nat, Id>, hi: nat, i: nat)
    requires i in queue && 1 <= i <= hi
    ensures queue[i] in Listing(queue, hi)
    decreases hi
  {
    if i < hi { Listed(queue, hi - 1, i); }
  }

  /** Leaving out one index leaves out its id. */
  lemma {:induction false} ListingWithout<Id>(queue: map<nat, Id>, rest: map<nat, Id>, hi: nat, i: nat)
    requires i in queue && 1 <= i && rest == queue - {i} && forall j | j in queue && j != i :: queue[j] != queue[i]
    ensures Listing(rest, hi) == Without(Listing(queue, hi), queue[i])
    decreases hi
  {
    if hi > 0 {
      ListingWithout(queue, rest, hi - 1, i);
      var s, t := Listing(queue, hi - 1), Listing(queue, hi);
      if hi in queue {
        assert t == s + [queue[hi]] && t[..|t| - 1] == s && t[|t| - 1] == queue[hi];
        if hi == i {
          assert Without(t, queue[i]) == Without(s, queue[i]);
          assert Listing(rest, hi) == Listing(rest, hi - 1);
        } else {
          assert queue[hi] != queue[i];
          assert Without(t, queue[i]) == Without(s, queue[i]) + [queue[hi]];
          assert hi in rest && rest[hi] == queue[hi];
          assert Listing(rest, hi) == Listing(rest, hi - 1) + [queue[hi]];
        }
      } else {
        assert t == s;
        assert hi !in rest;
      }
    }
  }

  lemma WithoutPush<Id>(s: seq<Id>, x: Id, id: Id)
    ensures Without(s + [x], id) == if x == id then Without(s, id) else Without(s, id) + [x]
  {
    assert (s + [x])[..|s|] == s;
  }

  lemma {:induction false} WithoutMembers<Id>(s: seq<Id>, id: Id, x: Id)
    ensures x in Without(s, id) <==> x in s && x != id
  {
    if s != [] {
      assert s == s[..|s| - 1] + [s[|s| - 1]];
      WithoutMembers(s[..|s| - 1], id, x);
    }
  }

  lemma {:induction false} WithoutAbsent<Id>(s: seq<Id>, id: Id)
    requires id !in s
    ensures Without(s, id) == s
  {
    if s != [] { WithoutAbsent(s[..|s| - 1], id); }
  }

  lemma {:induction false} ListingFrame<Id>(queue: map<nat, Id>, other: map<nat, Id>, hi: nat)
    requires forall i | 1 <= i <= hi :: (i in queue <==> i in other) && (i in queue ==> queue[i] == other[i])
    ensures Listing(queue, hi) == Listing(other, hi)
    decreases hi
  {
    if hi > 0 { ListingFrame(queue, other, hi - 1); }
  }

  lemma {:induction false} ListingCountUpTo<Id>(queue: map<nat, Id>, hi: nat)
    ensures |Listing(queue, hi)| == |set i: nat | i in queue && 1 <= i <= hi|
    decreases hi
  {
    var upTo := set i: nat | i in queue && 1 <= i <= hi;
    if hi == 0 {
      assert upTo == {};
    } else {
      ListingCountUpTo(queue, hi - 1);
      var before := set i: nat | i in queue && 1 <= i <= hi - 1;
      assert upTo == if hi in queue then before + {hi} else before;
    }
  }

  lemma ListingCount<Id>(queue: map<nat, Id>, hi: nat)
    requires forall i | i in queue :: 1 <= i <= hi
    ensures |Listing(queue, hi)| == |queue|
  {
    ListingCountUpTo(queue, hi);
    assert queue.Keys == set i: nat | i in queue && 1 <= i <= hi;
    assert |queue| == |queue.Keys|;
  }

  lemma SizeWithout<A, B>(m: map<A, B>, a: A)
    requires a in m
    ensures |m - {a}| == |m| - 1
  {
  }

  lemma SizeWith<A, B>(m: map<A, B>, a: A, b: B)
    requires a !in m
    ensures |m[a := b]| == |m| + 1
  {
  }

  /** A new index at the end lists its id last. */
  lemma ListingPush<Id>(queue: map<nat, Id>, index: map<Id, nat>, counter: nat, id: Id)
    requires Inverse(queue, index, counter)
    ensures Listing(queue[counter + 1 := id], counter + 1) == Listing(queue, counter) + [id]
    ensures id !in index ==> Listing(queue[counter + 1 := id], counter + 1) == Touched(Listing(queue, counter), id)
    ensures id in index ==>
      Listing(queue[counter + 1 := id] - {index[id]}, counter + 1) == Touched(Listing(queue, counter), id)
  {
    ListingFrame(queue, queue[counter + 1 := id], counter);
    if id in index {
      var rest := queue - {index[id]};
      ListingWithout(queue, queue - {index[id]}, counter, index[id]);
      ListingFrame(rest, queue[counter + 1 := id] - {index[id]}, counter);
    } else {
      AbsentId(queue, index, counter, id);
      WithoutAbsent(Listing(queue, counter), id);
    }
  }

  lemma AbsentId<Id>(queue: map<nat, Id>, index: map<Id, nat>, counter: nat, id: Id)
    requires Inverse(queue, index, counter) && id !in index
    ensures id !in Listing(queue, counter)
  {
    if id in Listing(queue, counter) {
      var k :| 0 <= k < |Listing(queue, counter)| && Listing(queue, counter)[k] == id;
      var i := ListingAt(queue, counter, k);
    }
  }

  /** The smallest live index has the least recent id. */
  lemma {:induction false} ListingFirst<Id>(queue: map<nat, Id>, hi: nat, m: nat)
    requires m in queue && 1 <= m <= hi && forall i | i in queue :: m <= i
    ensures Listing(queue, hi) != [] && Listing(queue, hi)[0] == queue[m]
    ensures Listing(queue - {m}, hi) == Listing(queue, hi)[1..]
    decreases hi
  {
    if hi == m {
      assert Listing(queue, m - 1) == [] by {
        if Listing(queue, m - 1) != [] { var i := ListingAt(queue, m - 1, 0); }
      }
      assert Listing(queue - {m}, m - 1) == [] by {
        if Listing(queue - {m}, m - 1) != [] { var i := ListingAt(queue - {m}, m - 1, 0); }
      }
    } else {
      ListingFirst(queue, hi - 1, m);
    }
  }

  lemma IndicesInRange<Id>(queue: map<nat, Id>, index: map<Id, nat>, counter: nat)
    requires Inverse(queue, index, counter)
    ensures forall i | i in queue :: 1 <= i <= counter
  {
  }

  lemma SmallestIn<Id>(queue: map<nat, Id>, index: map<Id, nat>, counter: nat, m: nat)
    requires Inverse(queue, index, counter) && Smallest(queue, m) && queue != map[]
    ensures m in queue && 1 <= m <= counter && queue[m] in index && index[queue[m]] == m
      && forall i | i in queue :: m <= i
  {
  }

  /** The maps with a new index at the end, the old index of its id, if it has one, taken out. */
  lemma Pushed<Id>(queue: map<nat, Id>, index: map<Id, nat>, counter: nat, m: nat, id: Id)
    requires Inverse(queue, index, counter) && Smallest(queue, m) && (queue == map[] ==> counter == 0)
    ensures var q, c := queue[counter + 1 := id], counter + 1;
      if id !in index then
        Inverse(q, index[id := c], c) && Smallest(q, m) && |q| == |queue| + 1 && q != map[]
      else
        var r := q - {index[id]};
        Inverse(r, index[id := c], c) && |r| == |queue| && r != map[]
        && if m == index[id] then forall i | i in r :: m < i else Smallest(r, m)
  {
    var q, c := queue[counter + 1 := id], counter + 1;
    SizeWith(queue, c, id);
    assert c in q;
    if id in index {
      SizeWithout(q, index[id]);
      assert c in q - {index[id]};
    }
  }

  lemma {:induction false} ImageSize<Id>(queue: map<nat, Id>, index: map<Id, nat>, counter: nat, keys: set<nat>)
    requires Inverse(queue, index, counter) && keys <= queue.Keys
    ensures |set i | i in keys :: queue[i]| == |keys|
  {
    if keys != {} {
      var k :| k in keys;
      ImageSize(queue, index, counter, keys - {k});
      var rest := set i | i in keys - {k} :: queue[i];
      assert (set i | i in keys :: queue[i]) == rest + {queue[k]};
      assert queue[k] !in rest;
    }
  }

  class Queue<Id(==)> {
    const limit: nat
    var size: int
    var minIndex: nat
    var queue: map<nat, Id>
    var index: map<Id, nat>
    var counter: nat

    /** Ids in order of their last hit. */
    ghost function Contents(): seq<Id>
      reads this
    {
      Listing(queue, counter)
    }

    ghost predicate Valid()
      reads this
    {
      && Inverse(queue, index, counter) && Smallest(queue, minIndex)
      && size == |queue| <= limit && (queue == map[] ==> counter == 0)
    }

    constructor (limit: nat)
      ensures Valid() && Contents() == [] && index == map[] && this.limit == limit
    {
      this.limit := limit;
      size, minIndex, queue, index, counter := 0, 1, map[], map[], 0;
    }

    /** The scan for the next live index. */
    method Scan()
      requires Inverse(queue, index, counter) && queue != map[] && forall i | i in queue :: minIndex < i
      modifies `minIndex
      ensures Smallest(queue, minIndex)
    {
      ghost var live :| live in queue;
      minIndex := minIndex + 1;
      while minIndex !in queue
        invariant forall i | i in queue :: minIndex <= i
        decreases counter - minIndex
      {
        assert minIndex <= live;
        minIndex := minIndex + 1;
      }
    }

    /** `hit`: the id moves to the end, and the id dropped for it, if one is, is returned. */
    method Hit(id: Id) returns (dropped: Option<Id>)
      requires Valid()
      modifies this
      ensures Valid() && Contents() == Trimmed(Touched(old(Contents()), id), limit)
      ensures var t := Touched(old(Contents()), id); dropped == if |t| > limit then Some(t[0]) else None
      ensures index.Keys == old(index.Keys) + {id} - if dropped.Some? then {dropped.value} else {}
      ensures id in old(index) ==> dropped.None?
      ensures dropped.Some? && limit > 0 ==> dropped.value in old(index) && dropped.value != id
    {
      hide Listing, Without, Inverse, Smallest;
      OldestKnown(id);
      if id in index { KnownFits(id); }
      ListingPush(queue, index, counter, id);
      Pushed(queue, index, counter, minIndex, id);
      var was := if id in index then Some(index[id]) else None;
      counter := counter + 1;
      queue := queue[counter := id];
      index := index[id := counter];
      if was.None? {
        size := size + 1;
        dropped := DropOldest();
      } else {
        queue := queue - {was.value};
        if minIndex == was.value { Scan(); }
        dropped := None;
      }
      IndicesInRange(queue, index, counter);
      CountContents();
    }

    /** What a hit may drop is not the id that is hit, */
    lemma OldestKnown(id: Id)
      requires Valid()
      ensures var t := Touched(Contents(), id); |t| > 1 ==> t[0] in index && t[0] != id
    {
      hide Listing, Without;
      var c, s := Contents(), Without(Contents(), id);
      if |s| > 0 {
        assert s[0] in s;
        WithoutMembers(c, id, s[0]);
        var k :| 0 <= k < |c| && c[k] == s[0];
        var i := ListingAt(queue, counter, k);
      }
    }

    /** and a hit of a known id drops nothing. */
    lemma KnownFits(id: Id)
      requires Valid() && id in index
      ensures |Touched(Contents(), id)| == size
    {
      hide Listing, Without, Inverse, Smallest;
      ListingPush(queue, index, counter, id);
      Pushed(queue, index, counter, minIndex, id);
      IndicesInRange(queue[counter + 1 := id] - {index[id]}, index[id := counter + 1], counter + 1);
      ListingCount(queue[counter + 1 := id] - {index[id]}, counter + 1);
    }

    /** What `hit` does for an id that was not in the queue, once it has its index. */
    method DropOldest() returns (dropped: Option<Id>)
      requires Inverse(queue, index, counter) && Smallest(queue, minIndex) && queue != map[]
        && size == |queue| <= limit + 1
      modifies this
      ensures Valid() && Contents() == Trimmed(old(Contents()), limit)
      ensures dropped == if |old(Contents())| > limit then Some(old(Contents())[0]) else None
      ensures index.Keys == old(index.Keys) - if dropped.Some? then {dropped.value} else {}
    {
      hide Listing, Inverse, Smallest;
      IndicesInRange(queue, index, counter);
      ListingCount(queue, counter);
      if size <= limit { return None; }
      SmallestIn(queue, index, counter, minIndex);
      var r := queue[minIndex];
      ListingFirst(queue, counter, minIndex);
      ghost var rest := queue - {minIndex};
      ListingCount(rest, counter);
      SizeWithout(queue, minIndex);
      Drop(r);
      if queue == map[] { ListingCount(queue, counter); }
      return Some(r);
    }

    /** The ids in order are those of the index. */
    lemma ContentsAre(id: Id)
      requires Valid()
      ensures id in Contents() <==> id in index
    {
      if id in index { Listed(queue, counter, index[id]); }
      if id in Contents() {
        var k :| 0 <= k < |Contents()| && Contents()[k] == id;
        var i := ListingAt(queue, counter, k);
      }
    }

    lemma CountContents()
      requires Valid()
      ensures |Contents()| == size
    {
      ListingCount(queue, counter);
    }

    lemma CountIndex()
      requires Valid()
      ensures |index| == size <= limit
    {
      var image := set i | i in queue :: queue[i];
      assert index.Keys == image by {
        forall id | id in index ensures id in image { assert queue[index[id]] == id; }
      }
      ImageSize(queue, index, counter, queue.Keys);
      assert |index| == |index.Keys|;
    }

    /** What `delete` does, when there may be one id too many. */
    method Drop(id: Id)
      requires Inverse(queue, index, counter) && Smallest(queue, minIndex) && size == |queue|
      modifies this
      ensures Inverse(queue, index, counter) && Smallest(queue, minIndex) && size == |queue|
      ensures queue == if id in old(index) then old(queue) - {old(index[id])} else old(queue)
      ensures counter == if id in old(index) && queue == map[] then 0 else old(counter)
      ensures index == old(index) - {id}
    {
      if id !in index { return; }
      var i := index[id];
      queue, index := queue - {i}, index - {id};
      SizeWithout(old(queue), i);
      size := size - 1;
      if minIndex == i {
        if size == 0 {
          assert queue == map[];
          counter, minIndex := 0, 1;
          return;
        }
        Scan();
      }
    }

    /** `delete` */
    method Delete(id: Id)
      requires Valid()
      modifies this
      ensures Valid() && Contents() == Without(old(Contents()), id) && index == old(index) - {id}
    {
      if id in index {
        ListingWithout(queue, queue - {index[id]}, counter, index[id]);
        ListingCount(queue - {index[id]}, counter);
      } else {
        AbsentId(queue, index, counter, id);
        WithoutAbsent(Contents(), id);
      }
      hide Listing, Without;
      Drop(id);
      ListingCount(queue, counter);
    }

    /** `clear` */
    method Clear()
      requires Valid()
      modifies this
      ensures Valid() && Contents() == [] && index == map[]
    {
      size, minIndex, queue, index, counter := 0, 1, map[], map[], 0;
    }

    /** Every run keeps the queue equal to the reference, which is never longer than the limit. */
    method Run(ops: seq<Op<Id>>)
      requires Valid() && Contents() == []
      modifies this
      ensures Valid() && Contents() == AfterAll(limit, ops) && |Contents()| == size <= limit
    {
      hide Listing, Without;
      var i := 0;
      while i < |ops|
        invariant i <= |ops| && Valid() && Contents() == AfterAll(limit, ops[..i])
      {
        assert ops[..i + 1][..i] == ops[..i];
        match ops[i] {
          case Hit(id) => var dropped := Hit(id);
          case Delete(id) => Delete(id);
          case Clear => Clear();
        }
        i := i + 1;
      }
      assert ops[..i] == ops;
      CountContents();
    }
  }
}
