/** What a list shows of its trie: the arrays of its blocks, its tail, and the elements they stand for. None is the
    value undefined. */
module ListViews {
  import opened Options
  import opened Digits

  /** The array of a block. */
  type Block<T> = seq<Option<T>>

  /** b[k], undefined past the end. */
  function Get<T>(b: Block<T>, k: nat): Option<T> {
    if k < |b| then b[k] else None
  }

  function Nones<T>(n: nat): (s: seq<Option<T>>)
    ensures |s| == n && forall k | 0 <= k < n :: s[k] == None
  {
    seq(n, _ => None)
  }

  /** `be` in a block: undefined in the last slot takes the slot off. */
  function Written<T>(b: Block<T>, k: nat, v: Option<T>): (r: Block<T>)
    ensures |r| <= if |b| <= k then k + 1 else |b|
    ensures forall m: nat :: Get(r, m) == if m == k then v else Get(b, m)
  {
    if v.Some? then if k < |b| then b[k := v] else b + Nones(k - |b|) + [v]
    else if Get(b, k).None? then b
    else if k == |b| - 1 then b[..k] else b[k := None]
  }

  /** `removeAfter` in a block. */
  function Upto<T>(b: Block<T>, k: nat): (r: Block<T>)
    ensures forall m: nat :: Get(r, m) == if m < k then Get(b, m) else None
  {
    if k < |b| then b[..k] else b
  }

  datatype View<T> = View(size: nat, level: nat, blocks: seq<Block<T>>, tail: Block<T>)
  {
    /** The index of the first element held by the tail. */
    function Offset(): nat {
      TailOffset(size)
    }

    ghost predicate Ok() {
      && size < MAX_CAPACITY && 1 <= level <= 5 && Offset() < Pow32(level + 1) && |blocks| == Pow32(level)
      && |tail| <= size - Offset() && (forall b | 0 <= b < |blocks| :: |blocks[b]| <= 32)
      && (Offset() == 0 ==> level == 1 && forall b | 0 <= b < |blocks| :: blocks[b] == [])
    }

    function At(i: nat): Option<T> {
      if i >= Offset() then Get(tail, i % 32)
      else if i / 32 < |blocks| then Get(blocks[i / 32], i % 32) else None
    }

    /** What `get` finds, for every index. */
    function Elems(): (s: seq<Option<T>>)
      ensures |s| == size && forall i | 0 <= i < size :: s[i] == At(i)
    {
      seq(size, i requires 0 <= i < size => At(i))
    }

    /** The block that the trie holds at the place of the tail: left there when the list was shortened. */
    function Hidden(): Block<T> {
      if Offset() / 32 < |blocks| then blocks[Offset() / 32] else []
    }
  }

  /** A write at an index of the list. */
  function Put<T>(x: View<T>, i: nat, v: Option<T>): View<T>
    requires i < x.Offset() ==> i / 32 < |x.blocks|
  {
    if i >= x.Offset() then x.(tail := Written(x.tail, i % 32, v))
    else x.(blocks := x.blocks[i / 32 := Written(x.blocks[i / 32], i % 32, v)])
  }

  lemma PutElems<T>(x: View<T>, i: nat, v: Option<T>)
    requires x.Ok() && i < x.size
    ensures i < x.Offset() ==> i / 32 < |x.blocks|
    ensures Put(x, i, v).Ok() && Put(x, i, v).Elems() == x.Elems()[i := v]
  {
    if i < x.Offset() { InTrie(x, i); }
    var r := Put(x, i, v);
    forall j | 0 <= j < x.size ensures r.At(j) == if j == i then v else x.At(j) { SameSlot(x.size, i, j); }
    TailOffsetFacts(x.size);
    assert r.Elems() == x.Elems()[i := v];
  }

  /** Every index before the tail is in a block of the trie. */
  lemma InTrie<T>(x: View<T>, i: nat)
    requires x.Ok() && i < x.Offset()
    ensures i / 32 < |x.blocks|
  {
  }

  lemma SameSlot(size: nat, i: nat, j: nat)
    requires i < size && j < size
    ensures i >= TailOffset(size) && j >= TailOffset(size) && i % 32 == j % 32 ==> i == j
    ensures i / 32 == j / 32 && i % 32 == j % 32 ==> i == j
  {
    TailOffsetFacts(size);
  }

  /** The loop of `Ne` that adds levels. */
  function GrownLevel(level: nat, h: nat): (a: nat)
    ensures a >= level && (level <= 5 ==> a <= 5)
    decreases 5 - level
  {
    if level >= 5 || h < Pow32(level + 1) then level else GrownLevel(level + 1, h)
  }

  lemma {:induction false} GrownFits(level: nat, h: nat)
    requires level <= 5 && h < MAX_CAPACITY
    ensures h < Pow32(GrownLevel(level, h) + 1) && Pow32(level) <= Pow32(GrownLevel(level, h))
    decreases 5 - level
  {
    assert Pow32(6) == MAX_CAPACITY by { assert Pow32(3) == 32768; }
    if level < 5 && h >= Pow32(level + 1) { GrownFits(level + 1, h); }
  }

  /** `Ne` for a larger size: the tail goes into the trie when the tail offset moves on, unless its array is empty. */
  function Grown<T>(x: View<T>, s: nat): (r: View<T>)
    ensures r.size == s
  {
    var l, h := x.Offset(), TailOffset(s);
    var a := GrownLevel(x.level, h);
    View(s, a, seq(Pow32(a), b requires 0 <= b => GrownBlock(x, s, b)), if h > l then [] else x.tail)
  }

  function GrownBlock<T>(x: View<T>, s: nat, b: nat): Block<T> {
    if TailOffset(s) > x.Offset() && |x.tail| > 0 && b == x.Offset() / 32 then x.tail
    else if b < |x.blocks| then x.blocks[b] else []
  }

  /** Growing shows a block that an earlier, longer list left in the trie: one between the old and the new tail offset
      that holds an element, and at the old tail offset one that the tail does not replace. */
  ghost predicate Reveals<T>(x: View<T>, s: nat) {
    exists b, k :: RevealsAt(x, s, b, k)
  }

  /** Slot k of block b is one. */
  ghost predicate RevealsAt<T>(x: View<T>, s: nat, b: int, k: int) {
    && x.Offset() / 32 <= b < |x.blocks| && b < TailOffset(s) / 32 && (b == x.Offset() / 32 ==> |x.tail| == 0)
    && 0 <= k < |x.blocks[b]| && x.blocks[b][k].Some?
  }

  /** What a grown list shows at an index. */
  lemma GrownAt<T>(x: View<T>, s: nat, i: nat)
    requires x.Ok() && x.size < s < MAX_CAPACITY && i < s
    ensures Grown(x, s).At(i) ==
      if i < x.Offset() || TailOffset(s) == x.Offset() then x.At(i)
      else if i >= TailOffset(s) then None
      else if i / 32 == x.Offset() / 32 && |x.tail| > 0 then Get(x.tail, i % 32)
      else if i / 32 < |x.blocks| then Get(x.blocks[i / 32], i % 32) else None
  {
    TailOffsetFacts(s);
    TailOffsetFacts(x.size);
    TailOffsetMonotonic(x.size, s);
    GrownFits(x.level, TailOffset(s));
    BlocksApart(i, x.Offset());
    BlocksApart(i, TailOffset(s));
    BlocksApart(x.Offset(), TailOffset(s));
  }

  /** Growth keeps the elements and adds undefined ones exactly if it reveals nothing. */
  lemma GrownElems<T>(x: View<T>, s: nat)
    requires x.Ok() && x.size < s < MAX_CAPACITY
    ensures Grown(x, s).Elems() == x.Elems() + Nones(s - x.size) <==> !Reveals(x, s)
  {
    var e, f := Grown(x, s).Elems(), x.Elems() + Nones(s - x.size);
    if Reveals(x, s) {
      var b, k :| RevealsAt(x, s, b, k);
      RevealedAt(x, s, b, k);
      assert e[32 * b + k] != f[32 * b + k];
    } else {
      forall i | 0 <= i < s ensures e[i] == f[i] { NotRevealed(x, s, i); }
    }
  }

  lemma RevealedAt<T>(x: View<T>, s: nat, b: nat, k: nat)
    requires x.Ok() && x.size < s < MAX_CAPACITY
    requires RevealsAt(x, s, b, k)
    ensures x.Offset() <= 32 * b + k < s && Grown(x, s).At(32 * b + k) == x.blocks[b][k]
    ensures 32 * b + k < x.size ==> x.At(32 * b + k) == None
  {
    var i := 32 * b + k;
    assert i / 32 == b && i % 32 == k;
    TailOffsetFacts(s);
    TailOffsetFacts(x.size);
    BlocksApart(i, x.Offset());
    BlocksApart(i, TailOffset(s));
    GrownAt(x, s, i);
  }

  lemma NotRevealed<T>(x: View<T>, s: nat, i: nat)
    requires x.Ok() && x.size < s < MAX_CAPACITY && i < s && !Reveals(x, s)
    ensures Grown(x, s).At(i) == if i < x.size then x.At(i) else None
  {
    TailOffsetFacts(s);
    TailOffsetFacts(x.size);
    TailOffsetMonotonic(x.size, s);
    GrownAt(x, s, i);
    BlocksApart(i, x.Offset());
    BlocksApart(i, TailOffset(s));
    var b, k := i / 32, i % 32;
    assert !RevealsAt(x, s, b, k);
  }

  /** Before a push of n values, the elements are kept exactly if the tail is not lost: it is when its array is empty
      and the block behind it, which takes its place, holds an element there. */
  ghost predicate LosesTail<T>(x: View<T>, s: nat) {
    TailOffset(s) > x.Offset() && |x.tail| == 0 && exists k :: 0 <= k < x.size - x.Offset() && Get(x.Hidden(), k).Some?
  }

  lemma GrownPrefix<T>(x: View<T>, s: nat)
    requires x.Ok() && x.size < s < MAX_CAPACITY
    ensures Grown(x, s).Elems()[..x.size] == x.Elems() <==> !LosesTail(x, s)
  {
    hide Grown, TailOffset;
    var e, f := Grown(x, s).Elems()[..x.size], x.Elems();
    TailOffsetFacts(s);
    TailOffsetFacts(x.size);
    if LosesTail(x, s) {
      var k :| 0 <= k < x.size - x.Offset() && Get(x.Hidden(), k).Some?;
      RevealedAt(x, s, x.Offset() / 32, k);
      assert 32 * (x.Offset() / 32) + k == x.Offset() + k;
      assert e[x.Offset() + k] != f[x.Offset() + k];
    } else {
      forall i | 0 <= i < x.size ensures e[i] == f[i] { PrefixKept(x, s, i); }
    }
  }

  lemma PrefixKept<T>(x: View<T>, s: nat, i: nat)
    requires x.Ok() && i < x.size < s < MAX_CAPACITY && !LosesTail(x, s)
    ensures Grown(x, s).At(i) == x.At(i)
  {
    TailOffsetFacts(s);
    TailOffsetFacts(x.size);
    TailOffsetMonotonic(x.size, s);
    GrownAt(x, s, i);
    BlocksApart(i, x.Offset());
    BlocksApart(i, TailOffset(s));
    if i >= x.Offset() { assert Get(x.Hidden(), i - x.Offset()).None? || |x.tail| > 0 || TailOffset(s) == x.Offset(); }
  }

  /** The guard of `Ne` for one element more: a size that fills the tail's block, an empty array in the tail, and an
      element in the block that an earlier, longer list left in its place. */
  ghost predicate Reappears<T>(x: View<T>) {
    && x.size % 32 == 0 && x.size >= 64 && |x.tail| == 0
    && exists k :: 0 <= k < |x.Hidden()| && x.Hidden()[k].Some?
  }

  lemma ReappearsIsLoss<T>(x: View<T>)
    requires x.Ok()
    ensures Reappears(x) <==> LosesTail(x, x.size + 1)
  {
    TailOffsetFacts(x.size);
    TailOffsetFacts(x.size + 1);
    if Reappears(x) {
      var k :| 0 <= k < |x.Hidden()| && x.Hidden()[k].Some?;
      assert Get(x.Hidden(), k).Some?;
    }
    if LosesTail(x, x.size + 1) {
      var k :| 0 <= k < x.size - x.Offset() && Get(x.Hidden(), k).Some?;
      assert x.Hidden()[k].Some?;
    }
  }

  /** A list whose last element is not undefined loses no tail. */
  lemma TailHolds<T>(x: View<T>)
    requires x.Ok() && (x.size == 0 || x.At(x.size - 1).Some?)
    ensures (x.size == 0 || |x.tail| == x.size - x.Offset()) && forall s :: !LosesTail(x, s)
  {
    TailOffsetFacts(x.size);
    if x.size > 0 { BlocksApart(x.size - 1, x.Offset()); }
  }

  lemma UptoSize<T>(b: Block<T>, k: nat)
    ensures |Upto(b, k)| <= k && |Upto(b, k)| <= |b|
  {
  }

  /** The block at place b of the trie. */
  function BlockAt<T>(x: View<T>, b: nat): Block<T> {
    if b < |x.blocks| then x.blocks[b] else []
  }

  ghost predicate PowerOf32(h: nat) {
    exists g: nat | 1 <= g <= 5 :: h == Pow32(g)
  }

  /** What a list cut to r has at place b. When its tail offset stays, or is a power of 32, blocks from there on are
      left (all, or the first of them); one at the place of the tail may be its array. Otherwise none is left. */
  ghost predicate LeftAt<T>(x: View<T>, r: View<T>, b: nat) {
    var h := r.Offset();
    if h == x.Offset() || b < h / 32 || (PowerOf32(h) && b < h) then
      BlockAt(r, b) == BlockAt(x, b) || (b == h / 32 && BlockAt(r, b) == r.tail)
    else BlockAt(r, b) == []
  }

  ghost predicate AllLeft<T>(x: View<T>, r: View<T>) {
    forall b: nat :: LeftAt(x, r, b)
  }

  /** `Ne` for a smaller size: the elements before it, in a tail that is the old one or the block found for it in the
      trie, and what is left behind. */
  ghost predicate CutTo<T>(x: View<T>, r: View<T>) {
    && r.Ok() && r.size < x.size && r.Elems() == x.Elems()[..r.size]
    && var l, h := x.Offset(), r.Offset();
      (h < l ==> h / 32 < |x.blocks|) && h <= l
      && r.tail == Upto(if h < l then x.blocks[h / 32] else x.tail, r.size - h)
      && AllLeft(x, r)
  }

  /** The elements of a list, as they are seen after it has grown to s. */
  function Kept<T>(x: View<T>, s: nat): (r: seq<Option<T>>)
    ensures |r| == x.size
  {
    if s > x.size then Grown(x, s).Elems()[..x.size] else x.Elems()
  }

  /** The last element of a grown list is in a new part of the tail. */
  lemma LastUnseen<T>(x: View<T>, i: nat)
    requires x.Ok() && x.size <= i < MAX_CAPACITY - 1
    ensures Grown(x, i + 1).At(i) == None
  {
    TailOffsetFacts(x.size);
    TailOffsetFacts(i + 1);
    GrownAt(x, i + 1, i);
    BlocksApart(i, TailOffset(i + 1));
  }

  /** By one element, growing reveals a block exactly if it loses the tail to it. */
  lemma OneMore<T>(x: View<T>)
    requires x.Ok()
    ensures Reveals(x, x.size + 1) <==> LosesTail(x, x.size + 1)
  {
    TailOffsetFacts(x.size);
    TailOffsetFacts(x.size + 1);
    BlocksApart(x.Offset(), TailOffset(x.size + 1));
    if LosesTail(x, x.size + 1) {
      var k :| 0 <= k < x.size - x.Offset() && Get(x.Hidden(), k).Some?;
      assert RevealsAt(x, x.size + 1, x.Offset() / 32, k);
    }
    if Reveals(x, x.size + 1) {
      var b, k :| RevealsAt(x, x.size + 1, b, k);
      assert Get(x.Hidden(), k).Some?;
    }
  }
}
