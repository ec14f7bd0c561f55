/** Immutable.List of the standalone preset, for lists whose origin is 0: a 32-way trie of shared nodes with a detached
    tail, edited in place where the owner token allows it. */
module ListTrie {
  import opened Arithmetic
  import opened Options
  import opened Digits
  import opened ListViews

  /** The empty token objects `new b` that say who may write a node in place. */
  class Owner {
    constructor () {}
  }

  /** What a JavaScript array slot of a node holds: undefined, a child or an element. */
  datatype Slot<T> = Hole | Child(node: Node<T>) | Val(v: T)

  function Holes<T>(n: nat): (s: seq<Slot<T>>)
    ensures |s| == n
    ensures forall k | 0 <= k < n :: s[k] == Hole
  {
    seq(n, _ => Hole)
  }

  /** a[k], undefined past the end. */
  function SlotAt<T>(a: seq<Slot<T>>, k: nat): Slot<T> {
    if k < |a| then a[k] else Hole
  }

  /** a[k] = x, padding with holes as a JavaScript array does. */
  function PutSlot<T>(a: seq<Slot<T>>, k: nat, x: Slot<T>): (r: seq<Slot<T>>)
    ensures |r| == if k < |a| then |a| else k + 1
    ensures forall m: nat :: SlotAt(r, m) == if m == k then x else SlotAt(a, m)
  {
    if k < |a| then a[k := x] else a + Holes(k - |a|) + [x]
  }

  /** `we`. The ghost position never changes: with origin 0 a node sits at the same level above the same run of indices
      in every list that shares it. */
  class Node<T> {
    var slots: seq<Slot<T>>
    const ownerID: Owner?
    ghost const level: nat
    ghost const prefix: nat

    constructor (slots: seq<Slot<T>>, ownerID: Owner?, ghost level: nat, ghost prefix: nat)
      ensures this.slots == slots && this.ownerID == ownerID
      ensures this.level == level && this.prefix == prefix
    {
      this.slots := slots;
      this.ownerID := ownerID;
      this.level := level;
      this.prefix := prefix;
    }
  }

  /** The contents of a set of nodes at one moment. */
  type Store<T> = map<Node<T>, seq<Slot<T>>>

  ghost function Snap<T>(S: set<Node<T>>): (h: Store<T>)
    reads S
    ensures h.Keys == S && forall n | n in S :: h[n] == n.slots
  {
    map n | n in S :: n.slots
  }

  ghost predicate SlotOk<T>(level: nat, prefix: nat, k: nat, x: Slot<T>, S: set<Node<T>>) {
    match x
    case Hole => true
    case Val(_) => level == 0
    case Child(c) => level > 0 && c in S && c.level == level - 1 && c.prefix == prefix * 32 + k
  }

  ghost predicate NodeOk<T>(n: Node<T>, slots: seq<Slot<T>>, S: set<Node<T>>) {
    && |slots| <= 32
    && forall k | 0 <= k < |slots| :: SlotOk(n.level, n.prefix, k, slots[k], S)
  }

  /** Every child of a node of the store is in the store, at its place. */
  ghost predicate StoreOk<T>(h: Store<T>) {
    forall n | n in h :: NodeOk(n, h[n], h.Keys)
  }

  /** A node (or its absence) at the place that covers index i on the given level. */
  ghost predicate Placed<T>(n: Node?<T>, level: nat, i: nat, h: Store<T>) {
    n != null ==> n in h && n.level == level && n.prefix == Shr(i, level + 1)
  }

  /** The node covers index i. */
  ghost predicate Covers<T>(n: Node<T>, i: nat) {
    n.prefix == Shr(i, n.level + 1)
  }

  function Value<T>(x: Slot<T>): Option<T> {
    if x.Val? then Some(x.v) else None
  }

  function SlotOf<T>(v: Option<T>): Slot<T> {
    if v.Some? then Val(v.value) else Hole
  }

  /** The elements in the array of a block. */
  function Values<T>(a: seq<Slot<T>>): (b: Block<T>)
    ensures |b| == |a| && forall k | 0 <= k < |a| :: b[k] == Value(a[k])
  {
    seq(|a|, k requires 0 <= k < |a| => Value(a[k]))
  }

  /** The block that walking down from n finds for index i. */
  ghost function At<T>(h: Store<T>, n: Node?<T>, level: nat, i: nat): Block<T> {
    if n == null || n !in h then []
    else if level == 0 then Values(h[n])
    else
      var x := SlotAt(h[n], Digit(i, level));
      if x.Child? then At(h, x.node, level - 1, i) else []
  }

  /** All indices of a block find it. */
  lemma {:induction false} OneBlock<T>(h: Store<T>, n: Node?<T>, level: nat, i: nat, j: nat)
    requires Shr(i, 1) == Shr(j, 1)
    ensures At(h, n, level, i) == At(h, n, level, j)
  {
    if level > 0 && n != null && n in h {
      ShrEqAbove(i, j, 1, level);
      var x := SlotAt(h[n], Digit(i, level));
      if x.Child? { OneBlock(h, x.node, level - 1, i, j); }
    }
  }

  lemma {:induction false} BlockSize<T>(h: Store<T>, n: Node?<T>, level: nat, i: nat)
    requires StoreOk(h)
    ensures |At(h, n, level, i)| <= 32
  {
    if n != null && n in h {
      assert NodeOk(n, h[n], h.Keys);
      if level > 0 {
        var x := SlotAt(h[n], Digit(i, level));
        if x.Child? { BlockSize(h, x.node, level - 1, i); }
      }
    }
  }

  /** The nodes a holder of this token may write. */
  ghost function Owned<T>(S: set<Node<T>>, owner: Owner?): set<Node<T>> {
    set n | n in S && owner != null && n.ownerID == owner
  }

  lemma ChildPlaced<T>(h: Store<T>, n: Node<T>, level: nat, i: nat)
    requires StoreOk(h) && Placed(n, level, i, h)
    ensures level > 0 && SlotAt(h[n], Digit(i, level)).Child? ==>
              Placed(SlotAt(h[n], Digit(i, level)).node, level - 1, i, h)
  {
  }

  /** What is found for i depends only on the nodes that cover i. */
  lemma {:induction false} AtAgree<T>(h: Store<T>, h': Store<T>, n: Node?<T>, level: nat, i: nat)
    requires StoreOk(h) && Placed(n, level, i, h)
    requires forall m | m in h && m.level <= level && Covers(m, i) :: m in h' && h'[m] == h[m]
    ensures At(h', n, level, i) == At(h, n, level, i)
  {
    if n != null {
      assert Covers(n, i);
      var x := SlotAt(h[n], Digit(i, level));
      if level > 0 && x.Child? {
        ChildPlaced(h, n, level, i);
        AtAgree(h, h', x.node, level - 1, i);
      }
    }
  }

  /** Two indices under the same node but in different slots share no node below it. */
  lemma PathsPart(level: nat, i: nat, j: nat)
    requires level > 0 && Shr(i, level + 1) == Shr(j, level + 1)
    ensures Digit(i, level) == Digit(j, level) <==> Shr(i, level) == Shr(j, level)
    ensures Digit(i, level) != Digit(j, level) ==>
              forall m: nat {:trigger Shr(i, m)} | 0 < m <= level :: Shr(i, m) != Shr(j, m)
  {
    forall m: nat {:trigger Shr(i, m)} | 0 < m <= level && Shr(i, m) == Shr(j, m)
      ensures Shr(i, level) == Shr(j, level)
    {
      ShrEqAbove(i, j, m, level);
    }
  }

  /** Replacing, in a node, the slot that covers i changes nothing for an index of another slot, when below that slot
      only nodes covering i were written. */
  lemma Relink<T>(h: Store<T>, h': Store<T>, t: Node?<T>, r: Node<T>, level: nat, i: nat, j: nat)
    requires StoreOk(h) && Placed(t, level, i, h) && Placed(r, level, i, h') && level > 0
    requires Shr(i, level + 1) == Shr(j, level + 1) && Shr(i, level) != Shr(j, level)
    requires SlotAt(h'[r], Digit(j, level)) == if t == null then Hole else SlotAt(h[t], Digit(j, level))
    requires forall m | m in h && m.level < level && !Covers(m, i) :: m in h' && h'[m] == h[m]
    ensures At(h', r, level, j) == At(h, t, level, j)
  {
    PathsPart(level, i, j);
    if t != null {
      var y := SlotAt(h[t], Digit(j, level));
      if y.Child? {
        ChildPlaced(h, t, level, j);
        forall m | m in h && m.level <= level - 1 && Covers(m, j)
          ensures m in h' && h'[m] == h[m]
        {
          assert Shr(i, m.level + 1) != Shr(j, m.level + 1);
        }
        AtAgree(h, h', y.node, level - 1, j);
      }
    }
  }

  /** `je` */
  method Editable<T>(t: Node?<T>, owner: Owner?, ghost level: nat, ghost prefix: nat)
    returns (r: Node<T>)
    requires t != null ==> t.level == level && t.prefix == prefix
    ensures r.level == level && r.prefix == prefix && r.ownerID == owner
    ensures r.slots == if t == null then [] else t.slots
    ensures if t != null && owner != null && t.ownerID == owner then r == t else fresh(r)
  {
    if owner != null && t != null && owner == t.ownerID {
      r := t;
    } else {
      r := new Node(if t == null then [] else t.slots, owner, level, prefix);
    }
  }

  /** The slots of a node or of its absence. */
  ghost function SlotsOf<T>(h: Store<T>, t: Node?<T>): seq<Slot<T>> {
    if t != null && t in h then h[t] else []
  }

  /** `je(t, e).array[k] = x` */
  method WriteSlot<T>(t: Node?<T>, owner: Owner?, k: nat, x: Slot<T>,
                      ghost S: set<Node<T>>, ghost level: nat, ghost i: nat)
    returns (r: Node<T>, ghost S': set<Node<T>>)
    requires Placed(t, level, i, Snap(S))
    modifies Owned(S, owner)
    ensures S' == S + {r} && r.ownerID == owner
    ensures r in S ==> r == t
    ensures r !in S ==> fresh(r)
    ensures Snap(S') == old(Snap(S))[r := PutSlot(SlotsOf(old(Snap(S)), t), k, x)]
    ensures Placed(r, level, i, Snap(S'))
  {
    ghost var h := Snap(S);
    r := Editable(t, owner, level, Shr(i, level + 1));
    r.slots := PutSlot(r.slots, k, x);
    S' := S + {r};
    assert Snap(S') == h[r := r.slots];
  }

  lemma PutKeepsStoreOk<T>(h: Store<T>, t: Node?<T>, r: Node<T>, level: nat, i: nat, k: nat, x: Slot<T>)
    requires StoreOk(h) && Placed(t, level, i, h) && r.level == level && Covers(r, i) && k < 32
    requires SlotOk(level, r.prefix, k, x, h.Keys)
    ensures StoreOk(h[r := PutSlot(SlotsOf(h, t), k, x)])
  {
  }

  ghost function ChildAt<T>(h: Store<T>, t: Node?<T>, level: nat, i: nat): Node?<T> {
    var x := SlotAt(SlotsOf(h, t), Digit(i, level)); if x.Child? then x.node else null
  }

  /** The store after the child for i has become f: the block of i is b and all else is kept. */
  lemma UpdateStep<T>(h: Store<T>, h1: Store<T>, h2: Store<T>, t: Node?<T>, r: Node<T>, f: Node?<T>, level: nat, i: nat,
                      b: Block<T>)
    requires level > 0 && StoreOk(h) && StoreOk(h1) && Placed(t, level, i, h)
    requires Placed(f, level - 1, i, h1) && Placed(r, level, i, h2)
    requires forall m | m in h && !(m.level < level && Covers(m, i)) :: m in h1 && h1[m] == h[m]
    requires forall j | Shr(j, level) == Shr(i, level) ::
      At(h1, f, level - 1, j) == if Shr(j, 1) == Shr(i, 1) then b else At(h, ChildAt(h, t, level, i), level - 1, j)
    requires h2 == h1[r := h2[r]] && ChildAt(h2, r, level, i) == f
    requires forall k | k != Digit(i, level) :: SlotAt(h2[r], k) == SlotAt(SlotsOf(h, t), k)
    ensures forall j | Shr(j, level + 1) == Shr(i, level + 1) ::
      At(h2, r, level, j) == if Shr(j, 1) == Shr(i, 1) then b else At(h, t, level, j)
  {
    forall j | Shr(j, level + 1) == Shr(i, level + 1)
      ensures At(h2, r, level, j) == if Shr(j, 1) == Shr(i, 1) then b else At(h, t, level, j)
    {
      PathsPart(level, i, j);
      if Shr(j, level) == Shr(i, level) {
        AtAgree(h1, h2, f, level - 1, j);
      } else {
        Relink(h, h2, t, r, level, i, j);
      }
    }
  }

  /** The array of a block after `be`. */
  function WrittenSlots<T>(a: seq<Slot<T>>, k: nat, v: Option<T>): seq<Slot<T>>
  {
    if v.None? && k == |a| - 1 then a[..k] else PutSlot(a, k, SlotOf(v))
  }

  lemma WrittenValues<T>(a: seq<Slot<T>>, k: nat, v: Option<T>)
    requires v.None? ==> k < |a| && Value(a[k]) != None
    ensures Values(WrittenSlots(a, k, v)) == Written(Values(a), k, v)
  {
    var r, w := Values(WrittenSlots(a, k, v)), Written(Values(a), k, v);
    assert |r| == |w|;
    forall m | 0 <= m < |r| ensures r[m] == w[m] { assert Get(w, m) == w[m]; }
  }

  lemma NodeFits<T>(h: Store<T>, n: Node<T>)
    requires StoreOk(h) && n in h
    ensures NodeOk(n, h[n], h.Keys)
  {
  }

  /** `be` on level 0, for a slot that changes. */
  method UpdateBlock<T>(t: Node?<T>, owner: Owner?, i: nat, v: Option<T>, ghost S: set<Node<T>>)
    returns (r: Node<T>, ghost S': set<Node<T>>)
    requires StoreOk(Snap(S)) && Placed(t, 0, i, Snap(S))
    requires v.None? ==> t != null && Digit(i, 0) < |t.slots| && t.slots[Digit(i, 0)] != Hole
    modifies Owned(S, owner)
    ensures S' == S + {r} && fresh(S' - S) && StoreOk(Snap(S')) && Placed(r, 0, i, Snap(S'))
    ensures r !in S ==> r.ownerID == owner
    ensures Values(r.slots) == Written(Values(old(SlotsOf(Snap(S), t))), Digit(i, 0), v)
    ensures forall n | n in S && n != t :: n.slots == old(n.slots)
  {
    hide StoreOk;
    ghost var h := Snap(S);
    var s := Digit(i, 0);
    if t != null { NodeFits(h, t); }
    WrittenValues(SlotsOf(h, t), s, v);
    r := Editable(t, owner, 0, Shr(i, 1));
    if v.None? && s == |r.slots| - 1 {
      r.slots := r.slots[..s];
    } else {
      r.slots := PutSlot(r.slots, s, SlotOf(v));
    }
    S' := S + {r};
    assert Snap(S') == h[r := r.slots];
    WriteKeepsStoreOk(h, r, r.slots);
  }

  lemma WriteKeepsStoreOk<T>(h: Store<T>, r: Node<T>, slots: seq<Slot<T>>)
    requires StoreOk(h) && NodeOk(r, slots, h.Keys + {r})
    ensures StoreOk(h[r := slots])
  {
    var h' := h[r := slots];
    forall n | n in h' ensures NodeOk(n, h'[n], h'.Keys) {
      if n != r { assert NodeOk(n, h[n], h.Keys); }
    }
  }

  /** The end of `be` above the blocks: f takes the place of the child c for index i. */
  method LinkChild<T>(t: Node?<T>, owner: Owner?, level: nat, i: nat, f: Node<T>, ghost S: set<Node<T>>)
    returns (r: Node<T>, ghost S': set<Node<T>>)
    requires level > 0 && StoreOk(Snap(S)) && Placed(t, level, i, Snap(S)) && Placed(f, level - 1, i, Snap(S))
    requires SlotOk(level, Shr(i, level + 1), Digit(i, level), Child(f), S)
    modifies Owned(S, owner)
    ensures S' == S + {r} && fresh(S' - S) && StoreOk(Snap(S')) && Placed(r, level, i, Snap(S'))
    ensures r in S ==> r == t
    ensures r !in S ==> r.ownerID == owner
    ensures Snap(S') == old(Snap(S))[r := r.slots] && ChildAt(Snap(S'), r, level, i) == f
    ensures forall k | k != Digit(i, level) :: SlotAt(r.slots, k) == SlotAt(old(SlotsOf(Snap(S), t)), k)
  {
    hide StoreOk;
    ghost var h := Snap(S);
    r, S' := WriteSlot(t, owner, Digit(i, level), Child(f), S, level, i);
    PutKeepsStoreOk(h, t, r, level, i, Digit(i, level), Child(f));
  }

  /** `be`: the trie with v at index i, copying the path except where it is owned. */
  method UpdateNode<T(==)>(t: Node?<T>, owner: Owner?, level: nat, i: nat, v: Option<T>, ghost S: set<Node<T>>)
    returns (r: Node?<T>, altered: bool, ghost S': set<Node<T>>)
    requires StoreOk(Snap(S)) && Placed(t, level, i, Snap(S))
    modifies Owned(S, owner)
    ensures S <= S' && fresh(S' - S) && StoreOk(Snap(S')) && Placed(r, level, i, Snap(S'))
    ensures forall n | n in S' - S :: n.ownerID == owner
    ensures forall j | Shr(j, level + 1) == Shr(i, level + 1) ::
      At(Snap(S'), r, level, j) ==
      if Shr(j, 1) == Shr(i, 1) then Written(At(old(Snap(S)), t, level, i), Digit(i, 0), v)
      else At(old(Snap(S)), t, level, j)
    ensures forall n | n in S && !(n.level <= level && Covers(n, i)) :: n.slots == old(n.slots)
    ensures !altered ==> r == t && S' == S && forall n | n in S :: n.slots == old(n.slots)
    ensures v.Some? || t != null ==> r != null
    decreases level
  {
    hide At, StoreOk;
    ghost var h := Snap(S);
    var s := Digit(i, level);
    if v.None? && (t == null || s >= |t.slots|) {
      NothingThere(h, t, level, i);
      return t, false, S;
    }
    if level > 0 {
      r, altered, S' := UpdateBranch(t, owner, level, i, v, S);
    } else {
      if t != null && s < |t.slots| && t.slots[s] == SlotOf(v) {
        Unwritten(h, t, i, v);
        return t, false, S;
      }
      if v.None? { NoChildBelow(h, t, s); }
      r, S' := UpdateBlock(t, owner, i, v, S);
      altered := true;
      LeafBlocks(h, Snap(S'), t, r, i);
    }
  }

  /** `be` above the blocks. */
  method UpdateBranch<T(==)>(t: Node?<T>, owner: Owner?, level: nat, i: nat, v: Option<T>, ghost S: set<Node<T>>)
    returns (r: Node?<T>, altered: bool, ghost S': set<Node<T>>)
    requires StoreOk(Snap(S)) && Placed(t, level, i, Snap(S)) && level > 0 && (v.Some? || t != null)
    modifies Owned(S, owner)
    ensures S <= S' && fresh(S' - S) && StoreOk(Snap(S')) && Placed(r, level, i, Snap(S'))
    ensures forall n | n in S' - S :: n.ownerID == owner
    ensures forall j | Shr(j, level + 1) == Shr(i, level + 1) ::
      At(Snap(S'), r, level, j) ==
      if Shr(j, 1) == Shr(i, 1) then Written(At(old(Snap(S)), t, level, i), Digit(i, 0), v)
      else At(old(Snap(S)), t, level, j)
    ensures forall n | n in S && !(n.level <= level && Covers(n, i)) :: n.slots == old(n.slots)
    ensures !altered ==> r == t && S' == S && forall n | n in S :: n.slots == old(n.slots)
    ensures r != null
    decreases level, 0
  {
    hide At, StoreOk;
    ghost var h := Snap(S);
    var x := if t == null then Hole else SlotAt(t.slots, Digit(i, level));
    var c := if x.Child? then x.node else null;
    if t != null { ChildPlaced(h, t, level, i); }
    var f;
    f, altered, S' := UpdateNode(c, owner, level - 1, i, v, S);
    ghost var h1 := Snap(S');
    ThroughChild(h, t, level, i);
    if f == c {
      r := t;
    } else {
      r, S' := LinkChild(t, owner, level, i, f, S');
    }
    UpdateStep(h, h1, Snap(S'), t, r, f, level, i, Written(At(h, t, level, i), Digit(i, 0), v));
  }

  lemma ThroughChild<T>(h: Store<T>, t: Node?<T>, level: nat, i: nat)
    requires level > 0
    ensures At(h, t, level, i) == At(h, ChildAt(h, t, level, i), level - 1, i)
  {
  }

  lemma NothingThere<T>(h: Store<T>, t: Node?<T>, level: nat, i: nat)
    requires Placed(t, level, i, h) && (t == null || Digit(i, level) >= |h[t]|)
    ensures Written(At(h, t, level, i), Digit(i, 0), None) == At(h, t, level, i)
    ensures forall j | Shr(j, 1) == Shr(i, 1) :: At(h, t, level, j) == At(h, t, level, i)
  {
    forall j | Shr(j, 1) == Shr(i, 1) ensures At(h, t, level, j) == At(h, t, level, i) { OneBlock(h, t, level, i, j); }
  }

  lemma Unwritten<T>(h: Store<T>, t: Node<T>, i: nat, v: Option<T>)
    requires t in h && Digit(i, 0) < |h[t]| && h[t][Digit(i, 0)] == SlotOf(v)
    ensures Written(At(h, t, 0, i), Digit(i, 0), v) == At(h, t, 0, i)
    ensures forall j {:trigger At(h, t, 0, j)} :: At(h, t, 0, j) == At(h, t, 0, i)
  {
  }

  lemma LeafBlocks<T>(h: Store<T>, h': Store<T>, t: Node?<T>, r: Node<T>, i: nat)
    requires r in h'
    ensures forall j {:trigger At(h', r, 0, j)} :: At(h', r, 0, j) == Values(h'[r])
    ensures At(h, t, 0, i) == Values(SlotsOf(h, t))
  {
  }

  lemma NoChildBelow<T>(h: Store<T>, t: Node<T>, i: nat)
    requires StoreOk(h) && t in h && t.level == 0 && i < |h[t]|
    ensures !h[t][i].Child?
  {
    assert NodeOk(t, h[t], h.Keys);
  }

  /** The node met on level g when walking from c towards index l. */
  ghost function NodeOn<T>(h: Store<T>, c: Node?<T>, a: nat, l: nat, g: nat): Node?<T> {
    if c == null || c !in h || a <= g then c
    else
      var x := SlotAt(h[c], Digit(l, a));
      if x.Child? then NodeOn(h, x.node, a - 1, l, g) else null
  }

  /** A write at one slot on the path to l is felt by the indices of that slot alone. */
  lemma {:induction false} PathWrite<T>(h: Store<T>, h': Store<T>, c: Node<T>, a: nat, l: nat, w: Node<T>, g: nat,
                                        f: Node<T>, j: nat)
    requires StoreOk(h) && Placed(c, a, l, h) && 0 < g <= a && NodeOn(h, c, a, l, g) == w
    requires Placed(w, g, l, h) && w in h && f in h'
    requires forall m | m in h && m != w && m.level <= a && !(m.level < g && Covers(m, l)) :: m in h' && h'[m] == h[m]
    requires w in h' && h'[w] == PutSlot(h[w], Digit(l, g), Child(f))
    requires Shr(j, a + 1) == Shr(l, a + 1)
    ensures NodeOn(h', c, a, l, g - 1) == f
    ensures At(h', c, a, j) == if Shr(j, g) == Shr(l, g) then At(h', f, g - 1, j) else At(h, c, a, j)
    decreases a
  {
    PathsPart(a, l, j);
    if a == g {
      if Shr(j, g) != Shr(l, g) {
        Relink(h, h', w, w, g, l, j);
      }
    } else {
      ChildPlaced(h, c, a, l);
      var x := SlotAt(h[c], Digit(l, a)).node;
      if Shr(j, a) == Shr(l, a) {
        PathWrite(h, h', x, a - 1, l, w, g, f, j);
      } else {
        PathWrite(h, h', x, a - 1, l, w, g, f, l);
        assert Shr(j, g) != Shr(l, g);
        Relink(h, h', c, c, a, l, j);
      }
    }
  }

  /** The slots that removeAfter leaves: up to slot i, which now holds x if x is a child. */
  function Cut<T>(slots: seq<Slot<T>>, i: nat, x: Slot<T>): (r: seq<Slot<T>>)
    requires i < |slots|
    ensures |r| == i + 1
  {
    if x.Child? then slots[..i + 1][i := x] else slots[..i + 1]
  }

  lemma CutKeepsStoreOk<T>(h: Store<T>, h': Store<T>, t: Node<T>, r: Node<T>, level: nat, k: nat, x: Slot<T>)
    requires StoreOk(h) && Placed(t, level, k, h) && Placed(r, level, k, h') && Digit(k, level) < |h[t]|
    requires x.Child? ==> SlotOk(level, r.prefix, Digit(k, level), x, h.Keys)
    requires h'.Keys == h.Keys + {r} && h'[r] == Cut(h[t], Digit(k, level), x)
    requires forall m | m in h && m != r :: h'[m] == h[m]
    ensures StoreOk(h')
  {
  }

  /** What a cut to n leaves of the block of an index before n. */
  ghost function CutBlock<T>(h: Store<T>, t: Node?<T>, level: nat, n: nat, j: nat): Block<T>
    requires n > 0
  {
    if Shr(j, 1) == Shr(n - 1, 1) then Upto(At(h, t, level, j), Digit(n - 1, 0) + 1) else At(h, t, level, j)
  }

  lemma CutStep<T>(h: Store<T>, h1: Store<T>, h2: Store<T>, t: Node<T>, r: Node<T>, level: nat, n: nat, x: Slot<T>)
    requires n > 0 && StoreOk(h) && StoreOk(h1) && Placed(t, level, n - 1, h) && Placed(r, level, n - 1, h2)
    requires Digit(n - 1, level) < |h[t]|
    requires h2[r] == Cut(h[t], Digit(n - 1, level), x)
    requires forall m | m in h1 && m != r :: m in h2 && h2[m] == h1[m]
    requires forall m | m in h && !(m.level < level && Covers(m, n - 1)) :: m in h1 && h1[m] == h[m]
    requires h[t][Digit(n - 1, level)].Child? ==>
      && level > 0 && x.Child? && Placed(x.node, level - 1, n - 1, h1)
      && forall j: nat | j < n && Shr(j, level) == Shr(n - 1, level) ::
        At(h1, x.node, level - 1, j) == CutBlock(h, h[t][Digit(n - 1, level)].node, level - 1, n, j)
    requires !h[t][Digit(n - 1, level)].Child? ==> !x.Child?
    ensures forall j: nat | j < n && Shr(j, level + 1) == Shr(n - 1, level + 1) ::
      At(h2, r, level, j) == CutBlock(h, t, level, n, j)
  {
    var i := Digit(n - 1, level);
    forall j: nat | j < n && Shr(j, level + 1) == Shr(n - 1, level + 1)
      ensures At(h2, r, level, j) == CutBlock(h, t, level, n, j)
    {
      ShrMonotonic(j, n - 1, level);
      if level > 0 {
        PathsPart(level, n - 1, j);
        if Shr(j, level) == Shr(n - 1, level) {
          if x.Child? { AtAgree(h1, h2, x.node, level - 1, j); }
        } else {
          assert Digit(j, level) < i;
          Relink(h, h2, t, r, level, n - 1, j);
        }
      } else {
        assert Values(h2[r]) == Upto(Values(h[t]), i + 1);
      }
    }
  }

  /** `u = je(this, t), u.array.splice(i + 1), r && (u.array[i] = r)` */
  method CutNode<T>(t: Node<T>, owner: Owner, i: nat, x: Slot<T>,
                    ghost S: set<Node<T>>, ghost level: nat, ghost k: nat)
    returns (r: Node<T>, ghost S': set<Node<T>>)
    requires t in S && Placed(t, level, k, Snap(S)) && i < |t.slots|
    modifies Owned(S, owner)
    ensures S' == S + {r} && r.ownerID == owner
    ensures r in S ==> r == t
    ensures r !in S ==> fresh(r)
    ensures Snap(S') == old(Snap(S))[r := Cut(old(t.slots), i, x)]
    ensures Placed(r, level, k, Snap(S'))
  {
    ghost var h := Snap(S);
    r := Editable(t, owner, level, Shr(k, level + 1));
    r.slots := Cut(r.slots, i, x);
    S' := S + {r};
    assert Snap(S') == h[r := r.slots];
  }

  lemma UncutSize<T>(h: Store<T>, t: Node<T>, level: nat, n: nat)
    requires n > 0 && StoreOk(h) && Placed(t, level, n - 1, h)
    requires (level > 0 && n == Pow32(level)) || Digit(n - 1, level) >= |h[t]|
    ensures |At(h, t, level, n - 1)| <= Digit(n - 1, 0) + 1
  {
    hide StoreOk;
    if level > 0 && n == Pow32(level) {
      ShrOne(n - 1);
      BlockSize(h, t, level, n - 1);
    }
  }

  /** Where nothing is cut off: the bound is that of the whole node, or its slots end before it. */
  lemma Uncut<T>(h: Store<T>, t: Node<T>, level: nat, n: nat)
    requires n > 0 && StoreOk(h) && Placed(t, level, n - 1, h)
    requires (level > 0 && n == Pow32(level)) || Digit(n - 1, level) >= |h[t]|
    ensures forall j: nat | j < n && Shr(j, level + 1) == Shr(n - 1, level + 1) ::
      At(h, t, level, j) == CutBlock(h, t, level, n, j)
  {
    hide StoreOk, At, Shr, Pow32, Placed;
    UncutSize(h, t, level, n);
    forall j: nat | j < n && Shr(j, level + 1) == Shr(n - 1, level + 1)
      ensures At(h, t, level, j) == CutBlock(h, t, level, n, j)
    {
      if Shr(j, 1) == Shr(n - 1, 1) { OneBlock(h, t, level, j, n - 1); }
    }
  }

  /** Index j lies in a block below the node of index n - 1 and behind that of n - 1. */
  ghost predicate Beyond(level: nat, n: nat, j: nat)
    requires n > 0
  {
    j >= n && Shr(j, level + 1) == Shr(n - 1, level + 1) && Shr(j, 1) != Shr(n - 1, 1)
  }

  ghost predicate SurvivesAt(level: nat, n: nat, j: nat, g: nat) {
    1 <= g <= level && n == Pow32(g) && Shr(j, g + 1) == 0
  }

  /** A bound that is the size of a child of a node on level g leaves this node as it is, which is the first one
      there. */
  ghost predicate Survives(level: nat, n: nat, j: nat) {
    exists g: nat :: SurvivesAt(level, n, j, g)
  }

  lemma DigitBeyond(level: nat, n: nat, j: nat)
    requires n > 0 && Beyond(level, n, j)
    ensures level > 0 && Digit(j, level) >= Digit(n - 1, level)
    ensures Digit(j, level) == Digit(n - 1, level) <==> Shr(j, level) == Shr(n - 1, level)
  {
    if level > 0 {
      ShrMonotonic(n - 1, j, level);
      PathsPart(level, j, n - 1);
    }
  }

  /** What survives is on the path to n - 1. */
  lemma SurvivesOnPath(level: nat, n: nat, j: nat)
    requires n > 0 && level > 0 && n != Pow32(level) && Survives(level, n, j)
    ensures Shr(j, level) == Shr(n - 1, level) && Survives(level - 1, n, j)
  {
    var g: nat :| SurvivesAt(level, n, j, g);
    assert SurvivesAt(level - 1, n, j, g);
    FitsIff(n - 1, g);
    ShrZeroAbove(j, g + 1, level);
    ShrZeroAbove(n - 1, g, level);
  }

  lemma SurvivesUp(level: nat, n: nat, j: nat)
    requires level > 0 && Survives(level - 1, n, j)
    ensures Survives(level, n, j)
  {
    var g: nat :| SurvivesAt(level - 1, n, j, g);
    assert SurvivesAt(level, n, j, g);
  }

  lemma UncutBeyond<T>(h: Store<T>, t: Node<T>, level: nat, n: nat, j: nat)
    requires n > 0 && Placed(t, level, n - 1, h) && Beyond(level, n, j)
    requires (level > 0 && n == Pow32(level)) || Digit(n - 1, level) >= |h[t]|
    ensures Survives(level, n, j) || At(h, t, level, j) == []
  {
    DigitBeyond(level, n, j);
    if n == Pow32(level) {
      FitsIff(n - 1, level);
      ShrZeroAbove(n - 1, level, level + 1);
      assert SurvivesAt(level, n, j, level);
    }
  }

  lemma BeyondStep<T>(h: Store<T>, h1: Store<T>, h2: Store<T>, t: Node<T>, r: Node<T>, level: nat, n: nat, x: Slot<T>,
                      j: nat)
    requires n > 0 && StoreOk(h) && StoreOk(h1) && Placed(t, level, n - 1, h) && Placed(r, level, n - 1, h2)
    requires Beyond(level, n, j) && Digit(n - 1, level) < |h[t]|
    requires level > 0 ==> n != Pow32(level)
    requires h2[r] == Cut(h[t], Digit(n - 1, level), x)
    requires forall m | m in h1 && m != r :: m in h2 && h2[m] == h1[m]
    requires h[t][Digit(n - 1, level)].Child? ==>
      && level > 0 && x.Child? && Placed(x.node, level - 1, n - 1, h1)
      && (Beyond(level - 1, n, j) ==>
            At(h1, x.node, level - 1, j) ==
              if Survives(level - 1, n, j) then At(h, h[t][Digit(n - 1, level)].node, level - 1, j) else [])
    requires !h[t][Digit(n - 1, level)].Child? ==> !x.Child?
    ensures At(h2, r, level, j) == if Survives(level, n, j) then At(h, t, level, j) else []
  {
    hide StoreOk;
    DigitBeyond(level, n, j);
    var i := Digit(n - 1, level);
    if Digit(j, level) == i {
      if x.Child? { AtAgree(h1, h2, x.node, level - 1, j); }
      if Survives(level, n, j) { SurvivesOnPath(level, n, j); }
      if Survives(level - 1, n, j) { SurvivesUp(level, n, j); }
    } else if Survives(level, n, j) {
      SurvivesOnPath(level, n, j);
    }
  }

  /** What a cut to n makes of a node: the blocks up to index n - 1, and those that survive. */
  ghost predicate CutOff<T>(h: Store<T>, h': Store<T>, t: Node<T>, r: Node<T>, level: nat, n: nat)
    requires n > 0
  {
    && (forall j: nat | j < n && Shr(j, level + 1) == Shr(n - 1, level + 1) ::
          At(h', r, level, j) == CutBlock(h, t, level, n, j))
    && forall j: nat | Beyond(level, n, j) ::
         At(h', r, level, j) == if Survives(level, n, j) then At(h, t, level, j) else []
  }

  lemma UncutOff<T>(h: Store<T>, t: Node<T>, level: nat, n: nat)
    requires n > 0 && StoreOk(h) && Placed(t, level, n - 1, h)
    requires (level > 0 && n == Pow32(level)) || Digit(n - 1, level) >= |h[t]|
    ensures CutOff(h, h, t, t, level, n)
  {
    hide At, StoreOk, CutBlock, Beyond, Survives, Placed;
    Uncut(h, t, level, n);
    forall j: nat | Beyond(level, n, j) ensures Survives(level, n, j) || At(h, t, level, j) == [] {
      UncutBeyond(h, t, level, n, j);
    }
  }

  lemma CutOffStep<T>(h: Store<T>, h1: Store<T>, h2: Store<T>, t: Node<T>, r: Node<T>, level: nat, n: nat, x: Slot<T>)
    requires n > 0 && StoreOk(h) && StoreOk(h1) && Placed(t, level, n - 1, h) && Placed(r, level, n - 1, h2)
    requires Digit(n - 1, level) < |h[t]| && (level > 0 ==> n != Pow32(level))
    requires h2[r] == Cut(h[t], Digit(n - 1, level), x)
    requires forall m | m in h1 && m != r :: m in h2 && h2[m] == h1[m]
    requires forall m | m in h && !(m.level < level && Covers(m, n - 1)) :: m in h1 && h1[m] == h[m]
    requires h[t][Digit(n - 1, level)].Child? ==>
      && level > 0 && x.Child? && Placed(x.node, level - 1, n - 1, h1)
      && CutOff(h, h1, h[t][Digit(n - 1, level)].node, x.node, level - 1, n)
    requires !h[t][Digit(n - 1, level)].Child? ==> !x.Child?
    ensures CutOff(h, h2, t, r, level, n)
  {
    CutStep(h, h1, h2, t, r, level, n, x);
    hide At, StoreOk, CutBlock, Beyond, Survives, Placed, Cut, Covers;
    forall j: nat | Beyond(level, n, j)
      ensures At(h2, r, level, j) == if Survives(level, n, j) then At(h, t, level, j) else []
    {
      BeyondStep(h, h1, h2, t, r, level, n, x, j);
    }
  }

  /** `removeAfter`: drops what lies beyond index n - 1. */
  method RemoveAfter<T>(t: Node<T>, owner: Owner, level: nat, n: nat, ghost S: set<Node<T>>)
    returns (r: Node<T>, ghost S': set<Node<T>>)
    requires n > 0 && StoreOk(Snap(S)) && Placed(t, level, n - 1, Snap(S))
    modifies Owned(S, owner)
    ensures S <= S' && fresh(S' - S) && StoreOk(Snap(S')) && Placed(r, level, n - 1, Snap(S'))
    ensures forall m | m in S' - S :: m.ownerID == owner
    ensures CutOff(old(Snap(S)), Snap(S'), t, r, level, n)
    ensures forall m | m in S && !(m.level <= level && Covers(m, n - 1)) :: m.slots == old(m.slots)
    ensures level > 0 && n == Pow32(level) ==> r == t && S' == S && forall m | m in S :: m.slots == old(m.slots)
    ensures level == 0 ==> S' <= S + {r} && forall m | m in S && m != r :: m.slots == old(m.slots)
    decreases level
  {
    hide At, StoreOk, CutOff;
    ghost var h := Snap(S);
    if n == (if level > 0 then Pow32(level) else 0) || |t.slots| == 0 {
      UncutOff(h, t, level, n);
      return t, S;
    }
    var i := Digit(n - 1, level);
    if i >= |t.slots| {
      UncutOff(h, t, level, n);
      return t, S;
    }
    ChildPlaced(h, t, level, n - 1);
    S' := S;
    var x := Hole;
    if level > 0 {
      var o := t.slots[i];
      var kept := true;
      if o.Child? {
        var c;
        c, S' := RemoveAfter(o.node, owner, level - 1, n, S);
        x := Child(c);
        kept := c == o.node;
      }
      if kept && i == |t.slots| - 1 {
        CutOffStep(h, Snap(S'), Snap(S'), t, t, level, n, x);
        return t, S';
      }
    }
    ghost var h1 := Snap(S');
    if level == 0 { NoChildBelow(h, t, i); }
    r, S' := CutNode(t, owner, i, x, S', level, n - 1);
    CutKeepsStoreOk(h1, Snap(S'), t, r, level, n - 1, x);
    CutOffStep(h, h1, Snap(S'), t, r, level, n, x);
  }

  /** `je` seen from a tree: the node to write stands for the same elements. */
  method EditableCopy<T>(t: Node?<T>, owner: Owner, level: nat, i: nat, ghost S: set<Node<T>>)
    returns (r: Node<T>, ghost S': set<Node<T>>)
    requires StoreOk(Snap(S)) && Placed(t, level, i, Snap(S))
    ensures S' == S + {r} && r.ownerID == owner && (r in S || fresh(r))
    ensures Snap(S') == old(Snap(S))[r := SlotsOf(old(Snap(S)), t)] && StoreOk(Snap(S'))
      && Placed(r, level, i, Snap(S'))
    ensures forall j | Shr(j, level + 1) == Shr(i, level + 1) ::
      At(Snap(S'), r, level, j) == At(old(Snap(S)), t, level, j)
  {
    ghost var h := Snap(S);
    r := Editable(t, owner, level, Shr(i, level + 1));
    S' := S + {r};
    ghost var h1 := Snap(S');
    assert h1 == h[r := SlotsOf(h, t)];
    forall n | n in h1 ensures NodeOk(n, h1[n], h1.Keys) {
      if t != null { assert NodeOk(t, h[t], h.Keys); }
      if n != r { assert NodeOk(n, h[n], h.Keys); }
    }
    forall j | Shr(j, level + 1) == Shr(i, level + 1) ensures At(h1, r, level, j) == At(h, t, level, j) {
      if t != null {
        var y := SlotAt(h[t], Digit(j, level));
        if level > 0 && y.Child? {
          ChildPlaced(h, t, level, j);
          AtAgree(h, h1, y.node, level - 1, j);
        }
      }
    }
  }

  /** Step of the merge loop: w.array[M] = je(w.array[M], r), then down to that child. */
  method EditChild<T>(w: Node<T>, owner: Owner, g: nat, l: nat, ghost S: set<Node<T>>)
    returns (f: Node<T>, ghost S': set<Node<T>>)
    requires g > 1 && StoreOk(Snap(S)) && w in S && Placed(w, g, l, Snap(S)) && w.ownerID == owner
    modifies Owned(S, owner)
    ensures S' == S + {f} && fresh(S' - S) && StoreOk(Snap(S')) && f.ownerID == owner
    ensures Placed(f, g - 1, l, Snap(S'))
    ensures forall m | m in S && m != w :: m.slots == old(m.slots)
    ensures w.slots == PutSlot(old(w.slots), Digit(l, g), Child(f))
    ensures forall j | Shr(j, g) == Shr(l, g) ::
      At(Snap(S'), f, g - 1, j) == At(old(Snap(S)), ChildAt(old(Snap(S)), w, g, l), g - 1, j)
  {
    var k := Digit(l, g);
    var x := SlotAt(w.slots, k);
    ChildPlaced(Snap(S), w, g, l);
    f, S' := EditableCopy(if x.Child? then x.node else null, owner, g - 1, l, S);
    ghost var h1 := Snap(S');
    w.slots := PutSlot(w.slots, k, Child(f));
    assert Snap(S') == h1[w := w.slots];
    PutKeepsStoreOk(h1, w, w, g, l, k, Child(f));
    forall j | Shr(j, g) == Shr(l, g) ensures At(Snap(S'), f, g - 1, j) == At(h1, f, g - 1, j) {
      AtAgree(h1, Snap(S'), f, g - 1, j);
    }
  }

  lemma {:induction false} PathThrough<T>(h: Store<T>, c: Node<T>, a: nat, l: nat, w: Node<T>, g: nat, j: nat)
    requires StoreOk(h) && c in h && Placed(c, a, l, h) && g <= a && NodeOn(h, c, a, l, g) == w
    requires Shr(j, g + 1) == Shr(l, g + 1)
    ensures At(h, c, a, j) == At(h, w, g, j)
  {
    if g < a {
      ChildPlaced(h, c, a, l);
      ShrEqAbove(j, l, g + 1, a);
      PathThrough(h, SlotAt(h[c], Digit(l, a)).node, a - 1, l, w, g, j);
    }
  }

  /** After a step of the merge loop the trie stands for the same elements. */
  lemma MergeStep<T>(h: Store<T>, h': Store<T>, c: Node<T>, a: nat, l: nat, w: Node<T>, g: nat, f: Node<T>)
    requires StoreOk(h) && c in h && Placed(c, a, l, h) && 1 < g <= a && NodeOn(h, c, a, l, g) == w
    requires w in h && Placed(w, g, l, h) && f in h' && w in h'
    requires forall m | m in h && m != w :: m in h' && h'[m] == h[m]
    requires h'[w] == PutSlot(h[w], Digit(l, g), Child(f))
    requires forall j | Shr(j, g) == Shr(l, g) :: At(h', f, g - 1, j) == At(h, ChildAt(h, w, g, l), g - 1, j)
    ensures NodeOn(h', c, a, l, g - 1) == f
    ensures forall j | Shr(j, a + 1) == Shr(l, a + 1) :: At(h', c, a, j) == At(h, c, a, j)
  {
    PathWrite(h, h', c, a, l, w, g, f, l);
    forall j | Shr(j, a + 1) == Shr(l, a + 1) ensures At(h', c, a, j) == At(h, c, a, j) {
      PathWrite(h, h', c, a, l, w, g, f, j);
      if Shr(j, g) == Shr(l, g) {
        assert Digit(j, g) == Digit(l, g);
        PathThrough(h, c, a, l, w, g, j);
      }
    }
  }

  /** The end of the merge loop: `w.array[l >>> 5 & 31] = p`. */
  method HangLeaf<T>(c: Node<T>, w: Node<T>, p: Node<T>, a: nat, l: nat, ghost S: set<Node<T>>)
    requires a >= 1 && StoreOk(Snap(S)) && Placed(c, a, l, Snap(S)) && Placed(w, 1, l, Snap(S))
      && Placed(p, 0, l, Snap(S))
    requires NodeOn(Snap(S), c, a, l, 1) == w
    modifies w
    ensures StoreOk(Snap(S)) && Snap(S) == old(Snap(S))[w := PutSlot(old(w.slots), Digit(l, 1), Child(p))]
    ensures forall j | Shr(j, a + 1) == Shr(l, a + 1) ::
      At(Snap(S), c, a, j) == if Shr(j, 1) == Shr(l, 1) then Values(p.slots) else At(old(Snap(S)), c, a, j)
  {
    hide StoreOk;
    ghost var h := Snap(S);
    w.slots := PutSlot(w.slots, Digit(l, 1), Child(p));
    assert Snap(S) == h[w := w.slots];
    PutKeepsStoreOk(h, w, w, 1, l, Digit(l, 1), Child(p));
    forall j | Shr(j, a + 1) == Shr(l, a + 1)
      ensures At(Snap(S), c, a, j) == if Shr(j, 1) == Shr(l, 1) then Values(p.slots) else At(h, c, a, j)
    {
      PathWrite(h, Snap(S), c, a, l, w, 1, p, j);
    }
  }

  /** The merge loop of `Ne`: hangs the old tail p into the trie below c at tail offset l. */
  method MergeTail<T>(root: Node?<T>, p: Node<T>, owner: Owner, a: nat, l: nat, ghost S: set<Node<T>>)
    returns (c: Node<T>, ghost S': set<Node<T>>)
    requires a >= 1 && StoreOk(Snap(S)) && Placed(root, a, l, Snap(S)) && p in S && Placed(p, 0, l, Snap(S))
    modifies Owned(S, owner)
    ensures S <= S' && fresh(S' - S) && StoreOk(Snap(S')) && Placed(c, a, l, Snap(S'))
    ensures forall m | m in S' - S :: m.ownerID == owner
    ensures forall m | m in S && m.level == 0 :: m.slots == old(m.slots)
    ensures forall j | Shr(j, a + 1) == Shr(l, a + 1) ::
      At(Snap(S'), c, a, j) ==
      if Shr(j, 1) == Shr(l, 1) then Values(p.slots) else At(old(Snap(S)), root, a, j)
  {
    hide StoreOk, At;
    ghost var h := Snap(S);
    c, S' := EditableCopy(root, owner, a, l, S);
    var w, g := c, a;
    while g > 1
      invariant 1 <= g <= a && S <= S' && c in S' && w in S' && fresh(S' - S) && StoreOk(Snap(S'))
      invariant forall m | m in S' - S :: m.ownerID == owner
      invariant Placed(c, a, l, Snap(S')) && Placed(w, g, l, Snap(S')) && w.ownerID == owner
      invariant NodeOn(Snap(S'), c, a, l, g) == w
      invariant forall m | m in S && m.level == 0 :: m.slots == old(m.slots)
      invariant forall j | Shr(j, a + 1) == Shr(l, a + 1) :: At(Snap(S'), c, a, j) == At(h, root, a, j)
    {
      ghost var h0, w0 := Snap(S'), w;
      w, S' := EditChild(w, owner, g, l, S');
      MergeStep(h0, Snap(S'), c, a, l, w0, g, w);
      g := g - 1;
    }
    HangLeaf(c, w, p, a, l, S');
  }

  /** `c = new we(c && c.array.length ? [c] : [], r)` */
  method WrapRoot<T>(root: Node?<T>, owner: Owner, b: nat, ghost S: set<Node<T>>)
    returns (c: Node<T>, ghost S': set<Node<T>>)
    requires b > 0 && StoreOk(Snap(S)) && Placed(root, b - 1, 0, Snap(S))
    ensures fresh(c) && S' == S + {c} && c.ownerID == owner && StoreOk(Snap(S')) && Placed(c, b, 0, Snap(S'))
    ensures forall j | Shr(j, b + 1) == 0 ::
      At(Snap(S'), c, b, j) == if Shr(j, b) == 0 then At(old(Snap(S)), root, b - 1, j) else []
  {
    hide StoreOk, At;
    ghost var h := Snap(S);
    ZeroShr(b);
    ZeroShr(b + 1);
    var kept := root != null && |root.slots| > 0;
    c := new Node(if kept then [Child(root)] else [], owner, b, 0);
    S' := S + {c};
    assert Snap(S') == h[c := c.slots];
    WriteKeepsStoreOk(h, c, c.slots);
    forall j | Shr(j, b + 1) == 0
      ensures At(Snap(S'), c, b, j) == if Shr(j, b) == 0 then At(h, root, b - 1, j) else []
    {
      WrappedAt(h, Snap(S'), root, c, b, j);
    }
  }

  lemma WrappedAt<T>(h: Store<T>, h': Store<T>, root: Node?<T>, c: Node<T>, b: nat, j: nat)
    requires b > 0 && StoreOk(h) && Placed(root, b - 1, 0, h) && Shr(j, b + 1) == 0 && c !in h
    requires h' == h[c := if root != null && |h[root]| > 0 then [Child(root)] else []]
    ensures At(h', c, b, j) == if Shr(j, b) == 0 then At(h, root, b - 1, j) else []
  {
    assert Shr(j, b + 1) == Shr(j, b) / 32;
    assert Digit(j, b) == Shr(j, b);
    if Shr(j, b) == 0 && root != null {
      ZeroShr(b);
      AtAgree(h, h', root, b - 1, j);
    }
  }

  /** The root loop of `Ne` that adds levels until the tail offset h fits below the root. */
  method GrowRoot<T>(root: Node?<T>, level: nat, h: nat, owner: Owner, ghost S: set<Node<T>>)
    returns (c: Node?<T>, a: nat, ghost S': set<Node<T>>)
    requires StoreOk(Snap(S)) && Placed(root, level, 0, Snap(S)) && level <= 5 && h < MAX_CAPACITY
    ensures S <= S' && fresh(S' - S) && StoreOk(Snap(S')) && Placed(c, a, 0, Snap(S'))
    ensures forall m | m in S' - S :: m.ownerID == owner
    ensures level <= a <= 5 && h < Pow32(a + 1) && a == GrownLevel(level, h)
    ensures h < Pow32(level + 1) ==> c == root && S' == S
    ensures forall j | Shr(j, a + 1) == 0 ::
      At(Snap(S'), c, a, j) == if Shr(j, level + 1) == 0 then At(old(Snap(S)), root, level, j) else []
  {
    hide StoreOk, At;
    ghost var s0 := Snap(S);
    c, a, S' := root, level, S;
    assert Pow32(6) == MAX_CAPACITY by { assert Pow32(3) == 32768; }
    while h >= Pow32(a + 1)
      invariant S <= S' && fresh(S' - S) && StoreOk(Snap(S')) && Placed(c, a, 0, Snap(S'))
      invariant forall m | m in S' - S :: m.ownerID == owner
      invariant level <= a <= 5 && GrownLevel(a, h) == GrownLevel(level, h)
      invariant h < Pow32(level + 1) ==> c == root && a == level && S' == S
      invariant forall j | Shr(j, a + 1) == 0 ::
        At(Snap(S'), c, a, j) == if Shr(j, level + 1) == 0 then At(s0, root, level, j) else []
      decreases 6 - a
    {
      ghost var s1, c1 := Snap(S'), c;
      a := a + 1;
      c, S' := WrapRoot(c, owner, a, S');
      forall j | Shr(j, a + 1) == 0
        ensures At(Snap(S'), c, a, j) == if Shr(j, level + 1) == 0 then At(s0, root, level, j) else []
      {
        if Shr(j, level + 1) == 0 { ShrZeroAbove(j, level + 1, a); }
      }
    }
  }

  /** The root loop of `Ne` that drops levels above the new tail offset h. */
  method ShrinkRoot<T>(root: Node?<T>, level: nat, h: nat, ghost S: set<Node<T>>)
    returns (c: Node?<T>, a: nat)
    requires StoreOk(Snap(S)) && Placed(root, level, 0, Snap(S))
    requires level >= 1 && h >= 32 && Shr(h, level + 1) == 0
    ensures 1 <= a <= level && Placed(c, a, 0, Snap(S)) && h < Pow32(a + 1)
    ensures forall j: nat | j < h :: At(Snap(S), c, a, j) == At(Snap(S), root, level, j)
    ensures forall j: nat | Shr(j, a + 1) == 0 :: At(Snap(S), c, a, j) == At(Snap(S), root, level, j)
    ensures Digit(h, level) != 0 ==> c == root && a == level
  {
    c, a := root, level;
    assert Shr(h, 1) == Shr(h, 0) / 32 == h / 32;
    while c != null && Digit(h, a) == 0
      invariant 1 <= a <= level && Placed(c, a, 0, Snap(S)) && Shr(h, a + 1) == 0
      invariant forall j: nat | Shr(j, a + 1) == 0 :: At(Snap(S), c, a, j) == At(Snap(S), root, level, j)
      invariant Digit(h, level) != 0 ==> c == root && a == level
      decreases a
    {
      assert Shr(h, a) == 0;
      ShrZeroAbove(0, 0, a);
      ChildPlaced(Snap(S), c, a, 0);
      forall j: nat | Shr(j, a) == 0 ensures Digit(j, a) == 0 && Shr(j, a + 1) == 0 {}
      a := a - 1;
      var x := SlotAt(c.slots, 0);
      c := if x.Child? then x.node else null;
    }
    FitsIff(h, a + 1);
    UnderRoot(h, a);
  }

  /** `xe`: the leaf block that holds index i of the trie. */
  method LeafFor<T>(root: Node?<T>, level: nat, i: nat, ghost S: set<Node<T>>) returns (n: Node?<T>)
    requires StoreOk(Snap(S)) && Placed(root, level, i, Snap(S))
    ensures Placed(n, 0, i, Snap(S))
    ensures forall j | Shr(j, 1) == Shr(i, 1) :: At(Snap(S), n, 0, j) == At(Snap(S), root, level, j)
  {
    n := root;
    var r := level;
    while n != null && r > 0
      invariant 0 <= r <= level && Placed(n, r, i, Snap(S))
      invariant forall j | Shr(j, 1) == Shr(i, 1) :: At(Snap(S), n, r, j) == At(Snap(S), root, level, j)
      decreases r
    {
      ChildPlaced(Snap(S), n, r, i);
      forall j | Shr(j, 1) == Shr(i, 1) ensures Digit(j, r) == Digit(i, r) { ShrEqAbove(j, i, 1, r); }
      var x := SlotAt(n.slots, Digit(i, r));
      n := if x.Child? then x.node else null;
      r := r - 1;
    }
  }

  // ---- Lists as views ---------------------------------------------------------------------------------------------

  /** The representation of a list. Blocks of the trie past the tail offset may hold anything. */
  ghost predicate Rep<T>(h: Store<T>, root: Node?<T>, tail: Node?<T>, level: nat, size: nat) {
    && StoreOk(h) && size < MAX_CAPACITY && 1 <= level <= 5 && TailOffset(size) < Pow32(level + 1)
    && Placed(root, level, 0, h) && Placed(tail, 0, TailOffset(size), h)
    && |SlotsOf(h, tail)| <= size - TailOffset(size)
    && (TailOffset(size) == 0 ==> root == null && level == 1)
  }

  ghost function ViewOf<T>(h: Store<T>, root: Node?<T>, tail: Node?<T>, level: nat, size: nat): View<T> {
    View(size, level, seq(Pow32(level), b requires 0 <= b => At(h, root, level, 32 * b)), Values(SlotsOf(h, tail)))
  }

  /** The block of an index of the list: in the trie below the tail offset, and the tail from there on. */
  ghost function BlockFor<T>(h: Store<T>, root: Node?<T>, tail: Node?<T>, level: nat, size: nat, i: nat): Block<T> {
    if i < TailOffset(size) then At(h, root, level, i) else Values(SlotsOf(h, tail))
  }

  lemma ViewOk<T>(h: Store<T>, root: Node?<T>, tail: Node?<T>, level: nat, size: nat)
    requires Rep(h, root, tail, level, size)
    ensures ViewOf(h, root, tail, level, size).Ok()
  {
    hide StoreOk, At;
    var x := ViewOf(h, root, tail, level, size);
    forall b | 0 <= b < |x.blocks| ensures |x.blocks[b]| <= 32 { BlockSize(h, root, level, 32 * b); }
    if root == null { forall b | 0 <= b < |x.blocks| ensures x.blocks[b] == [] { NoRoot(h, level, 32 * b); } }
  }

  lemma NoRoot<T>(h: Store<T>, level: nat, j: nat)
    ensures At<T>(h, null, level, j) == []
  {
  }

  /** An index of a block, and the first one. */
  lemma FirstOf<T>(h: Store<T>, root: Node?<T>, level: nat, i: nat)
    ensures At(h, root, level, 32 * (i / 32)) == At(h, root, level, i)
  {
    ShrOne(i);
    ShrOne(32 * (i / 32));
    OneBlock(h, root, level, 32 * (i / 32), i);
  }

  lemma ViewAt<T>(h: Store<T>, root: Node?<T>, tail: Node?<T>, level: nat, size: nat, i: nat)
    requires Rep(h, root, tail, level, size) && i < size
    ensures ViewOf(h, root, tail, level, size).At(i) == Get(BlockFor(h, root, tail, level, size, i), i % 32)
  {
    hide StoreOk, At;
    var x := ViewOf(h, root, tail, level, size);
    ViewOk(h, root, tail, level, size);
    if i < x.Offset() {
      InTrie(x, i);
      FirstOf(h, root, level, i);
    }
  }

  /** Block b is under a root of the level. */
  lemma UnderLevel(b: nat, level: nat)
    ensures b < Pow32(level) <==> Shr(32 * b, level + 1) == 0
  {
    FitsIff(32 * b, level + 1);
  }

  lemma ZeroShr(k: nat)
    ensures Shr(0, k) == 0
  {
    ShrZeroAbove(0, 0, k);
  }

  /** Every index below the tail offset lies under the root. */
  lemma UnderRoot(h: nat, a: nat)
    requires h < Pow32(a + 1)
    ensures Shr(h, a + 1) == 0 && Shr(0, a + 1) == 0
    ensures forall j: nat {:trigger Shr(j, a + 1)} | j <= h :: Shr(j, a + 1) == 0
  {
    FitsIff(h, a + 1);
    forall j: nat {:trigger Shr(j, a + 1)} | j <= h ensures Shr(j, a + 1) == 0 { ShrMonotonic(j, h, a + 1); }
  }

  /** Writes in the block of index k do not reach an index of another block. */
  lemma OtherBlock<T>(h: Store<T>, h': Store<T>, root: Node?<T>, level: nat, k: nat, j: nat)
    requires StoreOk(h) && Placed(root, level, j, h) && Shr(j, 1) != Shr(k, 1)
    requires forall n | n in h && !(n.level <= 0 && Covers(n, k)) :: n in h' && h'[n] == h[n]
    ensures At(h', root, level, j) == At(h, root, level, j)
  {
    hide StoreOk, Shr, At, Placed;
    AtAgree(h, h', root, level, j);
  }

  // ---- `Ne` for a larger size -------------------------------------------------------------------------------------

  /** `new we([], r)`, the tail that starts at offset h; the trie is as before. */
  method EmptyTail<T>(c: Node?<T>, a: nat, h: nat, owner: Owner, ghost S: set<Node<T>>)
    returns (d: Node<T>, ghost S': set<Node<T>>)
    requires StoreOk(Snap(S)) && Placed(c, a, h, Snap(S))
    ensures fresh(d) && S' == S + {d} && d.ownerID == owner && StoreOk(Snap(S')) && Placed(d, 0, h, Snap(S'))
    ensures d.slots == [] && Snap(S') == old(Snap(S))[d := []]
    ensures forall j | Shr(j, a + 1) == Shr(h, a + 1) :: At(Snap(S'), c, a, j) == At(old(Snap(S)), c, a, j)
  {
    hide StoreOk, At;
    ghost var s1 := Snap(S);
    ShrOne(h);
    d := new Node([], owner, 0, h / 32);
    S' := S + {d};
    assert Snap(S') == s1[d := []];
    WriteKeepsStoreOk(s1, d, []);
    forall j | Shr(j, a + 1) == Shr(h, a + 1) ensures At(Snap(S'), c, a, j) == At(s1, c, a, j) {
      AtAgree(s1, Snap(S'), c, a, j);
    }
  }

  /** The part of `Ne` for a tail offset that moves on from l to h: the tail p goes into the trie, unless its array is
      empty, and an empty one takes its place. */
  method HangTail<T>(root: Node?<T>, p: Node?<T>, a: nat, o: nat, h: nat, owner: Owner, ghost S: set<Node<T>>)
    returns (c: Node?<T>, d: Node<T>, ghost S': set<Node<T>>)
    requires a >= 1 && StoreOk(Snap(S)) && Placed(root, a, 0, Snap(S)) && Placed(p, 0, TailOffset(o), Snap(S))
    requires TailOffset(o) < h < Pow32(a + 1) && h % 32 == 0 && |SlotsOf(Snap(S), p)| <= o
    modifies Owned(S, owner)
    ensures S <= S' && fresh(S' - S) && forall n | n in S' - S :: n.ownerID == owner
    ensures StoreOk(Snap(S')) && Placed(c, a, 0, Snap(S')) && Placed(d, 0, h, Snap(S')) && d.slots == []
    ensures forall j | Shr(j, a + 1) == 0 ::
      At(Snap(S'), c, a, j) ==
      if |old(SlotsOf(Snap(S), p))| > 0 && Shr(j, 1) == Shr(TailOffset(o), 1) then Values(old(SlotsOf(Snap(S), p)))
      else At(old(Snap(S)), root, a, j)
  {
    hide StoreOk, At;
    var l := TailOffset(o);
    UnderRoot(h, a);
    d, S' := EmptyTail(root, a, h, owner, S);
    c := root;
    if p != null && o > 0 && |p.slots| > 0 {
      c, S' := MergeTail(root, p, owner, a, l, S');
      assert forall n | n in S' - S :: n.ownerID == owner;
    }
    ShrOne(h);
  }

  /** `Ne(t, 0, s)` when s exceeds the size o: more levels, and the old tail hung into the trie. */
  method GrowBounds<T>(root: Node?<T>, tail: Node?<T>, level: nat, o: nat, s: nat, owner: Owner, ghost S: set<Node<T>>)
    returns (c: Node?<T>, d: Node?<T>, a: nat, ghost S': set<Node<T>>)
    requires Rep(Snap(S), root, tail, level, o) && o < s < MAX_CAPACITY
    modifies Owned(S, owner)
    ensures S <= S' && fresh(S' - S) && forall n | n in S' - S :: n.ownerID == owner
    ensures Rep(Snap(S'), c, d, a, s)
    ensures ViewOf(Snap(S'), c, d, a, s) == Grown(old(ViewOf(Snap(S), root, tail, level, o)), s)
  {
    hide StoreOk, At;
    ghost var s0 := Snap(S);
    var l, h := TailOffset(o), TailOffset(s);
    TailOffsetFacts(o);
    TailOffsetFacts(s);
    TailOffsetMonotonic(o, s);
    c, a, S' := GrowRoot(root, level, h, owner, S);
    ghost var s1, c1 := Snap(S'), c;
    assert SlotsOf(s1, tail) == SlotsOf(s0, tail);
    d := tail;
    if h > l {
      c, d, S' := HangTail(c, tail, a, o, h, owner, S');
    }
    if h == 0 {
      a, c := 1, null;
    }
    GrownView(s0, s1, Snap(S'), root, c1, c, tail, d, level, a, o, s);
  }

  /** The blocks after growth. */
  lemma GrownView<T>(s0: Store<T>, s1: Store<T>, s2: Store<T>, root: Node?<T>, c1: Node?<T>, c: Node?<T>, p: Node?<T>,
                     d: Node?<T>, level: nat, a: nat, o: nat, s: nat)
    requires a == GrownLevel(level, TailOffset(s)) && TailOffset(o) <= TailOffset(s) && TailOffset(o) % 32 == 0
    requires forall j | Shr(j, a + 1) == 0 ::
      At(s1, c1, a, j) == if Shr(j, level + 1) == 0 then At(s0, root, level, j) else []
    requires SlotsOf(s1, p) == SlotsOf(s0, p)
    requires TailOffset(s) > TailOffset(o) ==> SlotsOf(s2, d) == []
    requires TailOffset(s) > TailOffset(o) ==> forall j | Shr(j, a + 1) == 0 ::
      At(s2, c, a, j) ==
      if |SlotsOf(s1, p)| > 0 && Shr(j, 1) == Shr(TailOffset(o), 1) then Values(SlotsOf(s1, p)) else At(s1, c1, a, j)
    requires TailOffset(s) == TailOffset(o) ==> c == c1 && s2 == s1 && d == p
    ensures ViewOf(s2, c, d, a, s) == Grown(ViewOf(s0, root, p, level, o), s)
  {
    hide At, GrownLevel;
    var x, r := ViewOf(s0, root, p, level, o), ViewOf(s2, c, d, a, s);
    forall b | 0 <= b < Pow32(a) ensures r.blocks[b] == GrownBlock(x, s, b) {
      UnderLevel(b, a);
      UnderLevel(b, level);
      ShrOne(32 * b);
      ShrOne(TailOffset(o));
    }
    assert r.blocks == Grown(x, s).blocks;
  }

  // ---- `Ne` for a smaller size ------------------------------------------------------------------------------------

  /** The block that becomes the tail of a list cut to s: found in the trie when the tail offset moves. */
  method FindTail<T>(root: Node?<T>, tail: Node?<T>, level: nat, o: nat, s: nat, ghost S: set<Node<T>>)
    returns (e: Node?<T>)
    requires Rep(Snap(S), root, tail, level, o) && 0 < s < o
    ensures Placed(e, 0, s - 1, Snap(S)) && Placed(e, 0, TailOffset(s), Snap(S))
    ensures Values(SlotsOf(Snap(S), e)) ==
      if TailOffset(s) < TailOffset(o) then At(Snap(S), root, level, TailOffset(s)) else Values(SlotsOf(Snap(S), tail))
  {
    hide StoreOk, At;
    var l, h := TailOffset(o), TailOffset(s);
    TailOffsetFacts(o);
    TailOffsetFacts(s);
    TailOffsetMonotonic(s, o);
    UnderRoot(l, level);
    ShrOne(s - 1);
    ShrOne(h);
    BlocksApart(s - 1, h);
    e := tail;
    if h < l {
      e := LeafFor(root, level, s - 1, S);
      OneBlock(Snap(S), root, level, s - 1, h);
      LeafBlock(Snap(S), e, s - 1);
    }
  }

  /** The new tail of a list cut to s. */
  method CutTail<T>(root: Node?<T>, tail: Node?<T>, level: nat, o: nat, s: nat, owner: Owner, ghost S: set<Node<T>>)
    returns (d: Node?<T>, ghost S': set<Node<T>>)
    requires Rep(Snap(S), root, tail, level, o) && 0 < s < o
    modifies Owned(S, owner)
    ensures S <= S' && fresh(S' - S) && forall n | n in S' - S :: n.ownerID == owner
    ensures StoreOk(Snap(S')) && Placed(root, level, 0, Snap(S')) && Placed(d, 0, TailOffset(s), Snap(S'))
    ensures forall j: nat | j < TailOffset(s) :: At(Snap(S'), root, level, j) == At(old(Snap(S)), root, level, j)
    ensures forall j: nat | Shr(j, level + 1) == 0 && Shr(j, 1) != Shr(TailOffset(s), 1) ::
      At(Snap(S'), root, level, j) == At(old(Snap(S)), root, level, j)
    ensures var now := At(Snap(S'), root, level, TailOffset(s));
      now == At(old(Snap(S)), root, level, TailOffset(s)) || now == Values(SlotsOf(Snap(S'), d))
    ensures Values(SlotsOf(Snap(S'), d)) ==
      Upto(if TailOffset(s) < TailOffset(o) then At(old(Snap(S)), root, level, TailOffset(s))
           else Values(old(SlotsOf(Snap(S), tail))), s - TailOffset(s))
  {
    hide StoreOk, At, Upto;
    ghost var s0 := Snap(S);
    ghost var h := TailOffset(s);
    TailOffsetFacts(s);
    TailOffsetMonotonic(s, o);
    UnderRoot(TailOffset(o), level);
    ShrOne(s - 1);
    ShrOne(h);
    BlocksApart(s - 1, h);
    var e := FindTail(root, tail, level, o, s, S);
    LeafBlock(s0, e, s - 1);
    d, S' := e, S;
    if e != null {
      d, S' := RemoveAfter(e, owner, 0, s, S);
      LeafBlock(Snap(S'), d, s - 1);
      LeafWritten(s0, Snap(S'), root, level, h, d);
    } else {
      UptoNothing<T>(s - h);
    }
    forall j: nat | j < h ensures At(Snap(S'), root, level, j) == At(s0, root, level, j) {
      ShrOne(j);
      BlocksApart(j, h);
      OtherBlock(s0, Snap(S'), root, level, s - 1, j);
    }
    forall j: nat | Shr(j, level + 1) == 0 && Shr(j, 1) != Shr(h, 1)
      ensures At(Snap(S'), root, level, j) == At(s0, root, level, j)
    {
      OtherBlock(s0, Snap(S'), root, level, s - 1, j);
    }
  }

  /** A write in the leaf r is seen in its block or not at all. */
  lemma {:induction false} LeafWritten<T>(h: Store<T>, h': Store<T>, n: Node?<T>, level: nat, j: nat, r: Node<T>)
    requires StoreOk(h) && Placed(n, level, j, h) && r in h' && r.level == 0
    requires forall m | m in h && m != r :: m in h' && h'[m] == h[m]
    ensures At(h', n, level, j) == At(h, n, level, j) || At(h', n, level, j) == Values(h'[r])
  {
    if n != null && level > 0 {
      ChildPlaced(h, n, level, j);
      var x := SlotAt(h[n], Digit(j, level));
      if x.Child? { LeafWritten(h, h', x.node, level - 1, j, r); }
    }
  }

  lemma UptoNothing<T>(k: nat)
    ensures Upto<T>([], k) == [] && Values<T>([]) == []
  {
  }

  lemma LeafBlock<T>(h: Store<T>, n: Node?<T>, j: nat)
    ensures At(h, n, 0, j) == Values(SlotsOf(h, n))
  {
  }

  /** The new root of a list cut to tail offset h. */
  method CutRoot<T>(root: Node?<T>, d: Node?<T>, level: nat, h: nat, owner: Owner, ghost S: set<Node<T>>)
    returns (c: Node?<T>, a: nat, ghost S': set<Node<T>>)
    requires StoreOk(Snap(S)) && Placed(root, level, 0, Snap(S)) && 1 <= level && Placed(d, 0, h, Snap(S))
    requires 32 <= h < Pow32(level + 1) && h % 32 == 0
    modifies Owned(S, owner)
    ensures S <= S' && fresh(S' - S) && forall n | n in S' - S :: n.ownerID == owner
    ensures StoreOk(Snap(S')) && 1 <= a <= level && h < Pow32(a + 1) && Placed(c, a, 0, Snap(S'))
    ensures forall j: nat | j < h :: At(Snap(S'), c, a, j) == At(old(Snap(S)), root, level, j)
    ensures forall j: nat | j >= h && Shr(j, a + 1) == 0 ::
      At(Snap(S'), c, a, j) == if Survives(a, h, j) then At(old(Snap(S)), root, level, j) else []
    ensures SlotsOf(Snap(S'), d) == old(SlotsOf(Snap(S), d))
    ensures h == Pow32(level) ==> c == root && a == level && S' == S && forall n | n in S :: n.slots == old(n.slots)
  {
    hide StoreOk, At, CutBlock, Survives;
    UnderRoot(h, level);
    ghost var s0 := Snap(S);
    S' := S;
    if h == Pow32(level) { FirstDigit(level); }
    c, a := ShrinkRoot(root, level, h, S);
    UnderRoot(h, a);
    ZeroShr(a + 1);
    ShrOne(h);
    ShrOne(h - 1);
    ghost var c0 := c;
    if c != null {
      c, S' := RemoveAfter(c, owner, a, h, S);
      forall j: nat | j < h ensures At(Snap(S'), c, a, j) == At(s0, root, level, j) { WholeBlock(s0, c0, a, h, j); }
      forall j: nat | j >= h && Shr(j, a + 1) == 0
        ensures At(Snap(S'), c, a, j) == if Survives(a, h, j) then At(s0, root, level, j) else []
      {
        BehindBound(a, h, j);
      }
    } else {
      NoBlocks(s0, a);
    }
  }

  lemma NoBlocks<T>(h: Store<T>, a: nat)
    ensures forall j {:trigger At(h, null, a, j)} :: At(h, null, a, j) == []
  {
  }

  lemma BehindBound(a: nat, h: nat, j: nat)
    requires 0 < h <= j && h % 32 == 0 && h < Pow32(a + 1) && Shr(j, a + 1) == 0
    ensures Beyond(a, h, j)
  {
    UnderRoot(h, a);
    ShrOne(j);
    ShrOne(h - 1);
    BlocksApart(h - 1, h);
    BlocksApart(j, h);
  }

  /** A cut between blocks leaves blocks whole. */
  lemma WholeBlock<T>(h: Store<T>, t: Node?<T>, level: nat, n: nat, j: nat)
    requires StoreOk(h) && n > 0 && n % 32 == 0
    ensures CutBlock(h, t, level, n, j) == At(h, t, level, j)
  {
    BlockSize(h, t, level, j);
    ShrOne(n - 1);
  }

  lemma {:induction false} FirstDigit(level: nat)
    ensures Shr(Pow32(level), level) == 1 && Digit(Pow32(level), level) == 1
  {
    if level > 0 {
      ShrShift(Pow32(level), level - 1);
      FirstDigit(level - 1);
    }
  }

  /** `Ne(t, 0, s)` when s is less than the size o: the tail is found again in the trie if its block changes, and what
      lies beyond s is cut. */
  method CutBounds<T>(root: Node?<T>, tail: Node?<T>, level: nat, o: nat, s: nat, owner: Owner, ghost S: set<Node<T>>)
    returns (c: Node?<T>, d: Node?<T>, a: nat, ghost S': set<Node<T>>)
    requires Rep(Snap(S), root, tail, level, o) && 0 < s < o
    modifies Owned(S, owner)
    ensures S <= S' && fresh(S' - S) && forall n | n in S' - S :: n.ownerID == owner
    ensures Rep(Snap(S'), c, d, a, s)
    ensures CutTo(old(ViewOf(Snap(S), root, tail, level, o)), ViewOf(Snap(S'), c, d, a, s))
    ensures TailOffset(s) == TailOffset(o) || TailOffset(s) == Pow32(level) ==> c == root && a == level
  {
    hide StoreOk, At, CutTo;
    ghost var s0 := Snap(S);
    var l, h := TailOffset(o), TailOffset(s);
    TailOffsetFacts(o);
    TailOffsetFacts(s);
    TailOffsetMonotonic(s, o);
    UnderRoot(l, level);
    c, a := root, level;
    d, S' := CutTail(root, tail, level, o, s, owner, S);
    ghost var s1 := Snap(S');
    UptoSize(if h < l then At(s0, root, level, h) else Values(SlotsOf(s0, tail)), s - h);
    if h == 0 {
      a, c := 1, null;
    } else if h < l {
      c, a, S' := CutRoot(root, d, level, h, owner, S');
    }
    ShrOne(h);
    forall j: nat | Shr(j, a + 1) == 0 ensures LeftBlock(s0, Snap(S'), root, c, d, level, a, l, h, j) {
      LeftThrough(s0, s1, Snap(S'), root, c, d, level, a, l, h, j);
    }
    CutView(s0, Snap(S'), root, c, tail, d, level, a, o, s);
  }

  /** What is at index j after a cut to tail offset h. */
  ghost predicate LeftBlock<T>(s0: Store<T>, s1: Store<T>, root: Node?<T>, c: Node?<T>, d: Node?<T>, level: nat, a: nat,
                               l: nat, h: nat, j: nat)
  {
    if h == l || j < h || Survives(a, h, j) then
      At(s1, c, a, j) == At(s0, root, level, j) || (Shr(j, 1) == Shr(h, 1) && At(s1, c, a, j) == Values(SlotsOf(s1, d)))
    else At(s1, c, a, j) == []
  }

  /** The tail is cut, and then the root, if the tail offset moves. */
  lemma LeftThrough<T>(s0: Store<T>, s1: Store<T>, s2: Store<T>, root: Node?<T>, c: Node?<T>, d: Node?<T>, level: nat,
                       a: nat, l: nat, h: nat, j: nat)
    requires a <= level && Shr(j, a + 1) == 0 && h % 32 == 0 && SlotsOf(s2, d) == SlotsOf(s1, d)
    requires Shr(j, level + 1) == 0 && Shr(j, 1) != Shr(h, 1) ==> At(s1, root, level, j) == At(s0, root, level, j)
    requires var now := At(s1, root, level, h); now == At(s0, root, level, h) || now == Values(SlotsOf(s1, d))
    requires
      if h == l then c == root && a == level && s2 == s1
      else if h == 0 then c == null
      else
        && (j < h ==> At(s2, c, a, j) == At(s1, root, level, j))
        && (j >= h ==> At(s2, c, a, j) == if Survives(a, h, j) then At(s1, root, level, j) else [])
    ensures LeftBlock(s0, s2, root, c, d, level, a, l, h, j)
  {
    ShrZeroAbove(j, a + 1, level + 1);
    ShrOne(j);
    ShrOne(h);
    BlocksApart(j, h);
    if Shr(j, 1) == Shr(h, 1) {
      OneBlock(s0, root, level, j, h);
      OneBlock(s1, root, level, j, h);
    }
    NoBlocks(s2, a);
  }

  lemma LeftView<T>(s0: Store<T>, s1: Store<T>, root: Node?<T>, c: Node?<T>, p: Node?<T>, d: Node?<T>, level: nat,
                    a: nat, o: nat, s: nat, b: nat)
    requires TailOffset(s) == TailOffset(o) ==> a == level
    requires a <= 5 && TailOffset(s) < Pow32(a + 1) && TailOffset(s) % 32 == 0
    requires b < Pow32(a) ==>
      LeftBlock(s0, s1, root, c, d, level, a, TailOffset(o), TailOffset(s), 32 * b)
        && (b >= Pow32(level) ==> At(s0, root, level, 32 * b) == [])
    ensures LeftAt(ViewOf(s0, root, p, level, o), ViewOf(s1, c, d, a, s), b)
  {
    hide At, StoreOk;
    var h := TailOffset(s);
    ShrOne(32 * b);
    ShrOne(h);
    BlocksApart(32 * b, h);
    SurvivesIff(a, h, b);
  }

  /** Which is so for the first blocks, exactly when the bound is a power of 32. */
  lemma SurvivesIff(a: nat, h: nat, b: nat)
    requires a <= 5 && h < Pow32(a + 1)
    ensures Survives(a, h, 32 * b) <==> PowerOf32(h) && b < h
    ensures PowerOf32(h) ==> h <= Pow32(a)
  {
    if g: nat :| 1 <= g <= 5 && h == Pow32(g) {
      FitsIff(32 * b, g + 1);
      if g > a { Pow32Grows(a + 1, g); }
      Pow32Grows(g, a);
      if b < h { assert SurvivesAt(a, h, 32 * b, g); }
    }
    if Survives(a, h, 32 * b) {
      var g: nat :| SurvivesAt(a, h, 32 * b, g);
      FitsIff(32 * b, g + 1);
    }
  }

  lemma {:induction false} Pow32Grows(g: nat, a: nat)
    ensures g <= a ==> Pow32(g) <= Pow32(a)
  {
    if g < a { Pow32Grows(g, a - 1); }
  }

  lemma CutView<T>(s0: Store<T>, s1: Store<T>, root: Node?<T>, c: Node?<T>, p: Node?<T>, d: Node?<T>, level: nat,
      a: nat,
                   o: nat, s: nat)
    requires Rep(s0, root, p, level, o) && 0 < s < o && Rep(s1, c, d, a, s)
    requires forall j: nat | j < TailOffset(s) :: At(s1, c, a, j) == At(s0, root, level, j)
    requires forall j: nat | Shr(j, a + 1) == 0 ::
      LeftBlock(s0, s1, root, c, d, level, a, TailOffset(o), TailOffset(s), j)
    requires TailOffset(s) == TailOffset(o) ==> a == level
    requires a <= level
    requires Values(SlotsOf(s1, d)) ==
      Upto(if TailOffset(s) < TailOffset(o) then At(s0, root, level, TailOffset(s)) else Values(SlotsOf(s0, p)),
           s - TailOffset(s))
    ensures CutTo(ViewOf(s0, root, p, level, o), ViewOf(s1, c, d, a, s))
  {
    hide StoreOk, At, AllLeft, LeftBlock;
    var x, r := ViewOf(s0, root, p, level, o), ViewOf(s1, c, d, a, s);
    LeftViews(s0, s1, root, c, p, d, level, a, o, s);
    TailOffsetFacts(o);
    TailOffsetFacts(s);
    TailOffsetMonotonic(s, o);
    ViewOk(s0, root, p, level, o);
    ViewOk(s1, c, d, a, s);
    if TailOffset(s) < TailOffset(o) { InTrie(x, TailOffset(s)); }
    forall i | 0 <= i < s ensures r.At(i) == x.At(i) {
      ViewAt(s0, root, p, level, o, i);
      ViewAt(s1, c, d, a, s, i);
      BlocksApart(i, TailOffset(s));
      if i >= TailOffset(s) && TailOffset(s) < TailOffset(o) {
        ShrOne(i);
        ShrOne(TailOffset(s));
        OneBlock(s0, root, level, TailOffset(s), i);
      }
    }
    assert r.Elems() == x.Elems()[..s];
  }

  lemma LeftViews<T>(s0: Store<T>, s1: Store<T>, root: Node?<T>, c: Node?<T>, p: Node?<T>, d: Node?<T>, level: nat,
                     a: nat, o: nat, s: nat)
    requires a <= 5 && TailOffset(s) < Pow32(a + 1) && a <= level && (TailOffset(s) == TailOffset(o) ==> a == level)
    requires forall j: nat | Shr(j, a + 1) == 0 ::
      LeftBlock(s0, s1, root, c, d, level, a, TailOffset(o), TailOffset(s), j)
    ensures AllLeft(ViewOf(s0, root, p, level, o), ViewOf(s1, c, d, a, s))
  {
    hide LeftBlock, LeftAt, ViewOf;
    TailOffsetFacts(s);
    Pow32Grows(a, level);
    forall b: nat ensures LeftAt(ViewOf(s0, root, p, level, o), ViewOf(s1, c, d, a, s), b) {
      UnderLevel(b, a);
      LeftView(s0, s1, root, c, p, d, level, a, o, s, b);
    }
  }

  /** `Ne(t, 0, s)` up to its result. */
  method Bounds<T>(root: Node?<T>, tail: Node?<T>, level: nat, o: nat, s: nat, owner: Owner, ghost S: set<Node<T>>)
    returns (c: Node?<T>, d: Node?<T>, a: nat, ghost S': set<Node<T>>)
    requires Rep(Snap(S), root, tail, level, o) && o != s && 0 < s && (s < o || s < MAX_CAPACITY)
    modifies Owned(S, owner)
    ensures S <= S' && fresh(S' - S) && forall n | n in S' - S :: n.ownerID == owner
    ensures Rep(Snap(S'), c, d, a, s)
    ensures var x, r := old(ViewOf(Snap(S), root, tail, level, o)), ViewOf(Snap(S'), c, d, a, s);
      if s > o then r == Grown(x, s) else CutTo(x, r)
    ensures s < o && (TailOffset(s) == TailOffset(o) || TailOffset(s) == Pow32(level)) ==> c == root && a == level
  {
    hide Rep, ViewOf, CutTo, Grown;
    if s > o {
      c, d, a, S' := GrowBounds(root, tail, level, o, s, owner, S);
    } else {
      c, d, a, S' := CutBounds(root, tail, level, o, s, owner, S);
    }
  }

  /** The choice of `set` between tail and trie, for an index of the list. */
  method SetElem<T(==)>(root: Node?<T>, tail: Node?<T>, level: nat, size: nat, owner: Owner?, i: nat, v: Option<T>,
                        ghost S: set<Node<T>>)
    returns (c: Node?<T>, d: Node?<T>, altered: bool, ghost S': set<Node<T>>)
    requires Rep(Snap(S), root, tail, level, size) && i < size
    modifies Owned(S, owner)
    ensures S <= S' && fresh(S' - S) && forall n | n in S' - S :: n.ownerID == owner
    ensures Rep(Snap(S'), c, d, level, size)
    ensures var x, r := old(ViewOf(Snap(S), root, tail, level, size)), ViewOf(Snap(S'), c, d, level, size);
      r.Elems() == x.Elems()[i := v] && r.tail == (if i >= TailOffset(size) then Written(x.tail, i % 32, v) else x.tail)
    ensures i < TailOffset(size) && i / 32 < Pow32(level) ==>
      ViewOf(Snap(S'), c, d, level, size) == Put(old(ViewOf(Snap(S), root, tail, level, size)), i, v)
    ensures i >= TailOffset(size) ==> c == root
    ensures !altered ==> c == root && d == tail && S' == S && forall n | n in S :: n.slots == old(n.slots)
  {
    hide StoreOk, At, ViewOf, Rep;
    if i >= TailOffset(size) {
      c := root;
      d, altered, S' := SetInTail(root, tail, level, size, owner, i, v, S);
    } else {
      d := tail;
      c, altered, S' := SetInTrie(root, tail, level, size, owner, i, v, S);
    }
  }

  method SetInTail<T(==)>(ghost root: Node?<T>, tail: Node?<T>, ghost level: nat, size: nat, owner: Owner?, i: nat,
                          v: Option<T>, ghost S: set<Node<T>>)
    returns (d: Node?<T>, altered: bool, ghost S': set<Node<T>>)
    requires Rep(Snap(S), root, tail, level, size) && TailOffset(size) <= i < size
    modifies Owned(S, owner)
    ensures S <= S' && fresh(S' - S) && forall n | n in S' - S :: n.ownerID == owner
    ensures Rep(Snap(S'), root, d, level, size)
    ensures var x, r := old(ViewOf(Snap(S), root, tail, level, size)), ViewOf(Snap(S'), root, d, level, size);
      r.Elems() == x.Elems()[i := v] && r.tail == Written(x.tail, i % 32, v)
    ensures !altered ==> d == tail && S' == S && forall n | n in S :: n.slots == old(n.slots)
  {
    hide StoreOk, At;
    ghost var h := Snap(S);
    var l := TailOffset(size);
    TailOffsetFacts(size);
    ShrOne(i);
    ShrOne(l);
    BlocksApart(i, l);
    d, altered, S' := UpdateNode(tail, owner, 0, i, v, S);
    LeafBlock(h, tail, i);
    LeafBlock(Snap(S'), d, i);
    forall j: nat | j < l ensures At(Snap(S'), root, level, j) == At(h, root, level, j) {
      ShrOne(j);
      UnderRoot(l, level);
      BlocksApart(j, l);
      OtherBlock(h, Snap(S'), root, level, i, j);
    }
    TailView(h, Snap(S'), root, tail, d, level, size, i, v);
  }

  lemma TailView<T>(h: Store<T>, h': Store<T>, root: Node?<T>, p: Node?<T>, d: Node?<T>, level: nat, size: nat, i: nat,
                    v: Option<T>)
    requires Rep(h, root, p, level, size) && Rep(h', root, d, level, size) && TailOffset(size) <= i < size
    requires forall j: nat | j < TailOffset(size) :: At(h', root, level, j) == At(h, root, level, j)
    requires Values(SlotsOf(h', d)) == Written(Values(SlotsOf(h, p)), i % 32, v)
    ensures ViewOf(h', root, d, level, size).Elems() == ViewOf(h, root, p, level, size).Elems()[i := v]
  {
    hide StoreOk, At;
    var x, r := ViewOf(h, root, p, level, size), ViewOf(h', root, d, level, size);
    forall j | 0 <= j < size ensures r.At(j) == if j == i then v else x.At(j) {
      ViewAt(h, root, p, level, size, j);
      ViewAt(h', root, d, level, size, j);
      SameSlot(size, i, j);
    }
    assert r.Elems() == x.Elems()[i := v];
  }

  method SetInTrie<T(==)>(root: Node?<T>, ghost tail: Node?<T>, level: nat, ghost size: nat, owner: Owner?, i: nat,
                          v: Option<T>, ghost S: set<Node<T>>)
    returns (c: Node?<T>, altered: bool, ghost S': set<Node<T>>)
    requires Rep(Snap(S), root, tail, level, size) && i < TailOffset(size)
    modifies Owned(S, owner)
    ensures S <= S' && fresh(S' - S) && forall n | n in S' - S :: n.ownerID == owner
    ensures Rep(Snap(S'), c, tail, level, size)
    ensures var x, r := old(ViewOf(Snap(S), root, tail, level, size)), ViewOf(Snap(S'), c, tail, level, size);
      i / 32 < |x.blocks| && r == Put(x, i, v) && r.Elems() == x.Elems()[i := v] && r.tail == x.tail
    ensures !altered ==> c == root && S' == S && forall n | n in S :: n.slots == old(n.slots)
  {
    hide StoreOk, At;
    ghost var h := Snap(S);
    ghost var l := TailOffset(size);
    TailOffsetFacts(size);
    UnderRoot(l, level);
    ShrOne(i);
    ShrOne(l);
    BlocksApart(i, l);
    c, altered, S' := UpdateNode(root, owner, level, i, v, S);
    assert SlotsOf(Snap(S'), tail) == SlotsOf(h, tail);
    ViewOk(h, root, tail, level, size);
    PutElems(ViewOf(h, root, tail, level, size), i, v);
    TrieView(h, Snap(S'), root, c, tail, level, size, i, v);
  }

  lemma TrieView<T>(h: Store<T>, h': Store<T>, root: Node?<T>, c: Node?<T>, p: Node?<T>, level: nat, size: nat, i: nat,
                    v: Option<T>)
    requires SlotsOf(h', p) == SlotsOf(h, p) && i < TailOffset(size) && i / 32 < Pow32(level)
    requires forall j | Shr(j, level + 1) == 0 ::
      At(h', c, level, j) ==
      if Shr(j, 1) == Shr(i, 1) then Written(At(h, root, level, i), Digit(i, 0), v) else At(h, root, level, j)
    ensures ViewOf(h', c, p, level, size) == Put(ViewOf(h, root, p, level, size), i, v)
  {
    hide At;
    var x, r := ViewOf(h, root, p, level, size), ViewOf(h', c, p, level, size);
    FirstOf(h, root, level, i);
    ShrOne(i);
    forall b | 0 <= b < Pow32(level) ensures r.blocks[b] == Put(x, i, v).blocks[b] {
      UnderLevel(b, level);
      ShrOne(32 * b);
    }
    assert r.blocks == Put(x, i, v).blocks;
  }

  /** Nodes that are not written show the same blocks. */
  lemma SameBlocks<T>(h: Store<T>, h': Store<T>, root: Node?<T>, p: Node?<T>, d: Node?<T>, level: nat, size: nat,
      size': nat)
    requires StoreOk(h) && Placed(root, level, 0, h) && forall n | n in h :: n in h' && h'[n] == h[n]
    ensures ViewOf(h', root, d, level, size').blocks == ViewOf(h, root, p, level, size).blocks
  {
    hide StoreOk, At;
    ZeroShr(level + 1);
    forall b | 0 <= b < Pow32(level) ensures At(h', root, level, 32 * b) == At(h, root, level, 32 * b) {
      UnderLevel(b, level);
      AtAgree(h, h', root, level, 32 * b);
    }
  }

  // ---- `_e`: iteration --------------------------------------------------------------------------------------------

  function Min(a: int, b: int): int {
    if a < b then a else b
  }

  /** m are the elements of the list. */
  ghost predicate Shows<T>(h: Store<T>, root: Node?<T>, tail: Node?<T>, level: nat, size: nat, m: seq<Option<T>>) {
    |m| == size && forall i | 0 <= i < size :: m[i] == Get(BlockFor(h, root, tail, level, size, i), i % 32)
  }

  /** What a leaf of the walk has at slot a. */
  lemma LeafShows<T>(h: Store<T>, t: Node?<T>, q: nat, root: Node?<T>, tail: Node?<T>, level: nat, size: nat,
                     m: seq<Option<T>>, a: nat)
    requires Shows(h, root, tail, level, size, m) && a < 32 && 32 * q + a < size
    requires forall j | Shr(j, 1) == q :: At(h, t, 0, j) == At(h, root, level, j)
    ensures m[32 * q + a] == Get(Values(SlotsOf(h, if 32 * q == TailOffset(size) then tail else t)), a)
  {
    hide At;
    var i := 32 * q + a;
    TailOffsetFacts(size);
    BlocksApart(32 * q, TailOffset(size));
    BlocksApart(i, TailOffset(size));
    ShrOne(i);
    LeafBlock(h, t, i);
  }

  /** A leaf of the walk: the tail at the tail offset, and the block t elsewhere. */
  method WalkLeaf<T>(t: Node?<T>, q: nat, ghost root: Node?<T>, tail: Node?<T>, ghost level: nat, size: nat,
                     ghost m: seq<Option<T>>, ghost S: set<Node<T>>)
    returns (seen: seq<Option<T>>)
    requires (t != null ==> t in S) && (tail != null ==> tail in S) && 32 * q <= size
    requires Shows(Snap(S), root, tail, level, size, m)
    requires forall j | Shr(j, 1) == q :: At(Snap(S), t, 0, j) == At(Snap(S), root, level, j)
    ensures |m| == size && seen == m[32 * q..Min(32 * q + 32, size)]
  {
    assert |m| == size;
    hide Shows, At, TailOffset;
    var s := if 32 * q == TailOffset(size) then tail else t;
    var c := Min(size - 32 * q, 32);
    seen := [];
    var a := 0;
    while a < c
      invariant 0 <= a <= c && seen == m[32 * q..32 * q + a]
    {
      LeafShows(Snap(S), t, q, root, tail, level, size, m, a);
      seen := seen + [if s != null && a < |s.slots| then Value(s.slots[a]) else None];
      a := a + 1;
    }
  }

  /** How many children of a node the walk enters. */
  method Entered(q: nat, at: nat, size: nat) returns (f: nat)
    requires Start(q, at + 1) <= size
    ensures f <= 32 && forall c | 32 * q <= c < 32 * q + f :: Start(c, at) <= size
    ensures Start(32 * q, at) == Start(q, at + 1) && Start(32 * q + 32, at) == Start(q + 1, at + 1)
    ensures f == 32 || size < Start(32 * q + f, at) <= Start(q + 1, at + 1)
  {
    f := Min(1 + (size - Start(q, at + 1)) / Pow32(at), 32);
    ChildStart(q, 0, at);
    RunsEnd(q, f, at, size);
    forall c | 32 * q <= c < 32 * q + f ensures Start(c, at) <= size { RunInside(q, c - 32 * q, at, size); }
  }

  /** The walk below the node t over the q-th run of 32^(at + 1) indices. */
  method Walk<T>(t: Node?<T>, at: nat, q: nat, ghost root: Node?<T>, tail: Node?<T>, ghost level: nat, size: nat,
                 ghost m: seq<Option<T>>, ghost S: set<Node<T>>)
    returns (seen: seq<Option<T>>)
    requires StoreOk(Snap(S)) && (tail != null ==> tail in S) && Start(q, at + 1) <= size
    requires Shows(Snap(S), root, tail, level, size, m) && Placed(t, at, Start(q, at + 1), Snap(S))
    requires forall j | Shr(j, at + 1) == q :: At(Snap(S), t, at, j) == At(Snap(S), root, level, j)
    ensures |m| == size && Start(q, at + 1) <= Start(q + 1, at + 1)
    ensures seen == m[Start(q, at + 1)..Min(Start(q + 1, at + 1), size)]
    decreases at, 1
  {
    assert |m| == size;
    hide Shows, At, StoreOk, Shr, Digit;
    if at > 0 {
      seen := WalkBranch(t, at, q, root, tail, level, size, m, S);
    } else {
      assert Pow32(1) == 32;
      seen := WalkLeaf(t, q, root, tail, level, size, m, S);
    }
  }

  method WalkBranch<T>(t: Node?<T>, at: nat, q: nat, ghost root: Node?<T>, tail: Node?<T>, ghost level: nat, size: nat,
                       ghost m: seq<Option<T>>, ghost S: set<Node<T>>)
    returns (seen: seq<Option<T>>)
    requires at > 0 && StoreOk(Snap(S)) && (tail != null ==> tail in S) && Start(q, at + 1) <= size == |m|
    requires Shows(Snap(S), root, tail, level, size, m) && Placed(t, at, Start(q, at + 1), Snap(S))
    requires forall j | Shr(j, at + 1) == q :: At(Snap(S), t, at, j) == At(Snap(S), root, level, j)
    ensures Start(q, at + 1) <= Start(q + 1, at + 1)
    ensures seen == m[Start(q, at + 1)..Min(Start(q + 1, at + 1), size)]
    decreases at, 0
  {
    hide Shows, At, StoreOk, Shr, Digit, Start, Pow32, Placed;
    var f := Entered(q, at, size);
    seen := [];
    var n := 0;
    while n < f
      invariant 0 <= n <= f && Start(q, at + 1) <= Start(32 * q + n, at)
      invariant seen == m[Start(q, at + 1)..Min(Start(32 * q + n, at), size)]
    {
      var x := if t == null then Hole else SlotAt(t.slots, n);
      ChildWalk(Snap(S), t, at, q, n, root, level);
      assert t != null ==> t in S by { InStore(Snap(S), t, at, Start(q, at + 1)); }
      var part := Walk(if x.Child? then x.node else null, at - 1, 32 * q + n, root, tail, level, size, m, S);
      Adjoin(m, Start(q, at + 1), Start(32 * q + n, at), Min(Start(32 * q + n + 1, at), size));
      seen := seen + part;
      n := n + 1;
    }
  }

  lemma InStore<T>(h: Store<T>, t: Node?<T>, level: nat, i: nat)
    requires Placed(t, level, i, h)
    ensures t != null ==> t in h
  {
  }

  lemma Adjoin<E>(m: seq<E>, a: nat, b: nat, c: nat)
    requires a <= b <= c <= |m|
    ensures m[a..b] + m[b..c] == m[a..c]
  {
  }

  lemma ChildWalk<T>(h: Store<T>, t: Node?<T>, at: nat, q: nat, n: nat, root: Node?<T>, level: nat)
    requires at > 0 && n < 32 && StoreOk(h) && Placed(t, at, Start(q, at + 1), h)
    requires forall j | Shr(j, at + 1) == q :: At(h, t, at, j) == At(h, root, level, j)
    ensures var x := SlotAt(SlotsOf(h, t), n); var c := if x.Child? then x.node else null;
      && Placed(c, at - 1, Start(32 * q + n, at), h)
      && forall j | Shr(j, at) == 32 * q + n :: At(h, c, at - 1, j) == At(h, root, level, j)
  {
    hide StoreOk, Pow32, Start;
    var x := SlotAt(SlotsOf(h, t), n);
    var c := if x.Child? then x.node else null;
    var i := Start(32 * q + n, at);
    ShrStart(q, at + 1);
    ShrStart(32 * q + n, at);
    assert Shr(i, at + 1) == Shr(i, at) / 32 == q && Digit(i, at) == n;
    if t != null { ChildPlaced(h, t, at, i); }
    forall j | Shr(j, at) == 32 * q + n ensures At(h, c, at - 1, j) == At(h, root, level, j) {
      assert Shr(j, at + 1) == Shr(j, at) / 32 == q && Digit(j, at) == n;
    }
  }

  class List<T(==)> {
    var size: nat
    var level: nat
    var root: Node?<T>
    var tail: Node?<T>
    var ownerID: Owner?
    var altered: bool
    /** Every node reachable from the list, and the elements it stands for; None is the value undefined. */
    ghost var nodes: set<Node<T>>
    ghost var elems: seq<Option<T>>

    ghost function View(): View<T>
      reads this, nodes
    {
      ViewOf(Snap(nodes), root, tail, level, size)
    }

    ghost predicate Valid()
      reads this, nodes
    {
      Rep(Snap(nodes), root, tail, level, size) && elems == View().Elems()
    }

    lemma Facts()
      requires Valid()
      ensures View().Ok() && View().Elems() == elems && View().size == size == |elems| && View().level == level
    {
      ViewOk(Snap(nodes), root, tail, level, size);
    }

    /** What an operation on this list may write: nothing at all unless the list has an owner. */
    ghost function Writable(): set<object>
      reads this
    {
      if ownerID == null then {} else {this} + Owned(nodes, ownerID)
    }

    /** `me` */
    constructor Make(size: nat, level: nat, root: Node?<T>, tail: Node?<T>, ownerID: Owner?,
                     ghost nodes: set<Node<T>>, ghost elems: seq<Option<T>>)
      ensures this.size == size && this.level == level && this.root == root && this.tail == tail
      ensures this.ownerID == ownerID && !altered && this.nodes == nodes && this.elems == elems
    {
      this.size, this.level, this.root, this.tail := size, level, root, tail;
      this.ownerID, this.altered, this.nodes, this.elems := ownerID, false, nodes, elems;
    }

    /** `Le` */
    constructor Empty()
      ensures Valid() && elems == [] && ownerID == null && nodes == {} && size == 0 && level == 1
    {
      size, level, root, tail, ownerID, altered, nodes, elems := 0, 1, null, null, null, false, {}, [];
    }

    /** `get`; None is undefined, or the caller's default. */
    method Get(index: int) returns (r: Option<T>)
      requires Valid()
      ensures 0 <= index < size ==> index < |elems| && r == elems[index]
      ensures index < 0 <= size + index ==> size + index < |elems| && r == elems[size + index]
      ensures size + index < 0 || index >= size ==> r == None
    {
      hide StoreOk, At, ViewOf;
      var i := Wrapped(size, index);
      if !(0 <= i < size) { return None; }
      var n := tail;
      if i < TailOffset(size) {
        UnderRoot(TailOffset(size), level);
        n := LeafFor(root, level, i, nodes);
      }
      ViewAt(Snap(nodes), root, tail, level, size, i);
      LeafBlock(Snap(nodes), n, i);
      Facts();
      r := if n != null && i % 32 < |n.slots| then Value(n.slots[i % 32]) else None;
    }

    /** `__iterate`: the elements in order, as the callback gets them. */
    method Iterate() returns (seen: seq<Option<T>>)
      requires Valid()
      ensures seen == elems
    {
      hide StoreOk, At, ViewOf, Start;
      Facts();
      AllShown();
      ZeroShr(level + 1);
      WholeRun(level, size);
      seen := Walk(root, level, 0, root, tail, level, size, elems, nodes);
    }

    lemma AllShown()
      requires Valid()
      ensures Shows(Snap(nodes), root, tail, level, size, elems)
    {
      hide StoreOk, At, ViewOf;
      Facts();
      forall i | 0 <= i < size
        ensures elems[i] == ListViews.Get(BlockFor(Snap(nodes), root, tail, level, size, i), i % 32)
      {
        ViewAt(Snap(nodes), root, tail, level, size, i);
      }
    }

    lemma WholeRun(level: nat, size: nat)
      requires level >= 1 && TailOffset(size) < Pow32(level + 1)
      ensures Start(0, level + 1) == 0 && size <= Start(1, level + 1)
    {
      TailOffsetFacts(size);
      assert Pow32(level + 1) == 32 * Pow32(level);
    }

    /** How a result r of an operation hangs together with the list it was called on: a list without an owner is left
        alone and what is new is out of reach of every live token; a list with an owner is its own result. */
    twostate predicate Derived(new r: List<T>)
      reads this, r
    {
      if old(ownerID) == null then
        && r.ownerID == null && (r == this || fresh(r))
        && forall n | n in r.nodes && n !in old(nodes) :: fresh(n) && (n.ownerID == null || fresh(n.ownerID))
      else
        && r == this && ownerID == old(ownerID)
        && forall n | n in nodes && n !in old(nodes) :: fresh(n) && n.ownerID == ownerID
    }

    /** The end of `set` and `Ne`: in place for an owner, a new list otherwise. */
    method Finish(size: nat, level: nat, root: Node?<T>, tail: Node?<T>, ghost nodes: set<Node<T>>) returns (r: List<T>)
      requires Rep(Snap(nodes), root, tail, level, size)
      modifies if ownerID == null then {} else {this}
      ensures r.size == size && r.level == level && r.root == root && r.tail == tail
      ensures r.nodes == nodes && r.ownerID == old(ownerID) && r.Valid()
      ensures if old(ownerID) == null then fresh(r) else r == this && altered
    {
      hide Rep, ViewOf;
      ghost var elems := ViewOf(Snap(nodes), root, tail, level, size).Elems();
      if ownerID != null {
        this.size, this.level, this.root, this.tail, this.altered := size, level, root, tail, true;
        this.nodes, this.elems := nodes, elems;
        r := this;
      } else {
        r := new List.Make(size, level, root, tail, null, nodes, elems);
      }
    }

    /** `clear` */
    method Clear() returns (r: List<T>)
      requires Valid()
      modifies Writable()
      ensures r.Valid() && r.elems == [] && Derived(r) && r.size == 0 && r.level == 1
      ensures r.ownerID != null && !r.altered ==> !old(altered) && old(elems) == []
    {
      Facts();
      if size == 0 { EmptyLevel(); return this; }
      r := Finish(0, 1, null, null, {});
    }

    lemma EmptyLevel()
      requires Valid() && size == 0
      ensures level == 1
    {
    }

    /** `Ne(t, 0, n)`: the first n elements (counted from the end if n is negative), or a list of n elements. */
    method SetBounds(n: int) returns (r: List<T>)
      requires Valid() && Bound(size, n) < MAX_CAPACITY
      modifies Writable()
      ensures r.Valid() && Derived(r)
      ensures var s := Bound(old(size), n); var x := old(View());
        && r.size == (if s < 0 then 0 else s)
        && (s <= 0 ==> r.elems == [])
        && (0 < s < old(size) ==> CutTo(x, r.View()))
        && (s == old(size) ==> r == this && r.elems == old(elems))
        && (s > old(size) ==> r.View() == Grown(x, s))
        && (old(ownerID) == null && 0 < s < x.size
            && (TailOffset(s) == x.Offset() || TailOffset(s) == Pow32(x.level)) ==>
              r.View().blocks == x.blocks && r.level == x.level)
      ensures r.ownerID != null && !r.altered ==> !old(altered) && r.size == old(size) && r.elems == old(elems)
    {
      hide Rep, ViewOf, CutTo, Grown, Int32;
      Facts();
      var owner: Owner;
      if ownerID != null { owner := ownerID; } else { owner := new Owner(); }
      var s := Bound(size, n);
      if s == size { return this; }
      if s <= 0 {
        r := Clear();
        return;
      }
      ghost var h := Snap(nodes);
      var c, d, a;
      ghost var S';
      c, d, a, S' := Bounds(root, tail, level, size, s, owner, nodes);
      ghost var p, o, l := tail, size, level;
      if ownerID == null && c == root && a == level { KeptBlocks(h, Snap(S'), c, p, d, a, o, s); }
      r := Finish(s, a, c, d, S');
    }

    lemma KeptBlocks(h: Store<T>, h': Store<T>, root: Node?<T>, p: Node?<T>, d: Node?<T>, level: nat, size: nat,
        size': nat)
      requires Rep(h, root, p, level, size) && forall n | n in h :: n in h' && h'[n] == h[n]
      ensures ViewOf(h', root, d, level, size').blocks == ViewOf(h, root, p, level, size).blocks
    {
      SameBlocks(h, h', root, p, d, level, size, size');
    }

    /** `set`, at an index of the list. */
    method SetAt(i: nat, v: Option<T>) returns (r: List<T>)
      requires Valid() && i < size
      modifies Writable()
      ensures r.Valid() && Derived(r) && r.size == old(size) && r.level == old(level) && |old(elems)| == old(size)
      ensures r.elems == old(elems)[i := v]
      ensures i < old(View()).Offset() ==> i / 32 < |old(View()).blocks|
      ensures old(ownerID) == null ==> r.View() == Put(old(View()), i, v)
      ensures r.ownerID != null && !r.altered ==> !old(altered) && r.elems == old(elems)
      ensures r.ownerID != null && old(altered) ==> r.altered
    {
      hide Rep, ViewOf, Put;
      Facts();
      ghost var h, x, p := Snap(nodes), View(), tail;
      if i < x.Offset() { InTrie(x, i); }
      var c, d, isAltered;
      ghost var S';
      c, d, isAltered, S' := SetElem(root, tail, level, size, ownerID, i, v, nodes);
      if ownerID == null && i >= TailOffset(size) { PutInTail(h, Snap(S'), c, p, d, level, size, i, v); }
      if !isAltered {
        assert Snap(S') == h;
        return this;
      }
      r := Finish(size, level, c, d, S');
    }

    lemma PutInTail(h: Store<T>, h': Store<T>, root: Node?<T>, p: Node?<T>, d: Node?<T>, level: nat, size: nat, i: nat,
                    v: Option<T>)
      requires Rep(h, root, p, level, size) && i >= TailOffset(size) && forall n | n in h :: n in h' && h'[n] == h[n]
      requires ViewOf(h', root, d, level, size).tail == Written(ViewOf(h, root, p, level, size).tail, i % 32, v)
      ensures ViewOf(h', root, d, level, size) == Put(ViewOf(h, root, p, level, size), i, v)
    {
      SameBlocks(h, h', root, p, d, level, size, size);
    }

    /** `set`; an index from the size on lengthens the list. */
    method Set(index: int, v: Option<T>) returns (r: List<T>)
      requires Valid() && 0 <= Wrapped(size, index) < MAX_CAPACITY - 1
      modifies Writable()
      ensures r.Valid() && Derived(r) && |old(elems)| == old(size)
      ensures 0 <= index < old(size) ==> r.elems == old(elems)[index := v]
      ensures index < 0 <= old(size) + index ==> r.elems == old(elems)[old(size) + index := v]
      ensures index >= old(size) ==> |r.elems| == index + 1 && r.elems[index] == v
      ensures var i, x := Wrapped(old(size), index), old(View());
        if i < x.size then
          && r.size == x.size && r.level == x.level && |old(elems)| == x.size && r.elems == old(elems)[i := v]
          && (i < x.Offset() ==> i / 32 < |x.blocks|) && (old(ownerID) == null ==> r.View() == Put(x, i, v))
        else
          r.size == i + 1 && r.level == Grown(x, i + 1).level && r.elems == Grown(x, i + 1).Elems()[i := v]
      ensures r.ownerID != null && !r.altered ==> !old(altered) && r.elems == old(elems)
    {
      hide Rep, ViewOf, Put, Grown;
      Facts();
      var i := Wrapped(size, index);
      if i >= size {
        var m := AsMutable();
        m.Lengthen(i, v);
        r := DoneMutating(m);
      } else {
        r := SetAt(i, v);
      }
    }

    /** The function that `set` passes to withMutations for an index beyond the list. */
    method Lengthen(i: nat, v: Option<T>)
      requires Valid() && ownerID != null && size <= i < MAX_CAPACITY - 1
      modifies Writable()
      ensures Valid() && size == i + 1 && level == Grown(old(View()), i + 1).level && ownerID == old(ownerID) && altered
      ensures elems == Grown(old(View()), i + 1).Elems()[i := v]
      ensures forall n | n in nodes && n !in old(nodes) :: fresh(n) && n.ownerID == ownerID
    {
      hide Rep, ViewOf;
      Facts();
      BoundIs(size, i + 1);
      var n := SetBounds(i + 1);
      Facts();
      n := SetAt(i, v);
    }

    /** `__ensureOwner` */
    method EnsureOwner(owner: Owner?) returns (r: List<T>)
      requires Valid()
      modifies if owner == null && ownerID != null then {this} else {}
      ensures r.Valid() && r.elems == old(elems) && r.nodes == old(nodes) && r.ownerID == owner
        && r.View() == old(View())
      ensures r.size == old(size) && r.level == old(level)
      ensures if owner == old(ownerID) || owner == null then r == this else fresh(r) && !r.altered
    {
      hide Rep, ViewOf;
      if owner == ownerID { return this; }
      if owner != null {
        r := new List.Make(size, level, root, tail, owner, nodes, elems);
      } else {
        ownerID := null;
        r := this;
      }
    }

    /** `asMutable` */
    method AsMutable() returns (r: List<T>)
      requires Valid()
      ensures r.Valid() && r.elems == elems && r.nodes == nodes && r.ownerID != null && r.View() == View()
      ensures r.size == size && r.level == level
      ensures if ownerID != null then r == this else fresh(r) && fresh(r.ownerID) && !r.altered
    {
      hide Rep, ViewOf;
      if ownerID != null { return this; }
      var owner := new Owner();
      r := EnsureOwner(owner);
    }

    /** The end of `withMutations`, `set` and `push` after the function has run on m = asMutable(). */
    method DoneMutating(m: List<T>) returns (r: List<T>)
      requires m.Valid() && m.ownerID != null
      requires ownerID != null ==> m == this
      requires ownerID == null ==> m != this && Valid() && (!m.altered ==> m.elems == elems)
      modifies if ownerID == null then {m} else {}
      ensures r.Valid() && r.elems == old(m.elems)
      ensures if ownerID != null then r == this
              else r.ownerID == null && (r == this || r == m) && r.nodes == old(r.nodes)
      ensures old(m.altered) ==> r == m && r.View() == old(m.View()) && r.size == old(m.size) && r.level == old(m.level)
    {
      hide Rep, ViewOf;
      if m.altered {
        r := m.EnsureOwner(ownerID);
      } else {
        r := this;
      }
    }

    /** The function that `push` passes to withMutations. */
    method Append(values: seq<Option<T>>)
      requires Valid() && ownerID != null && size + |values| < MAX_CAPACITY
      modifies Writable()
      ensures Valid() && size == old(size) + |values| && ownerID == old(ownerID)
      ensures elems == Kept(old(View()), old(size) + |values|) + values
      ensures forall n | n in nodes && n !in old(nodes) :: fresh(n) && n.ownerID == ownerID
      ensures !altered ==> !old(altered) && elems == old(elems)
    {
      hide Rep, ViewOf, Grown;
      Facts();
      var e := size;
      BoundIs(size, e + |values|);
      var n := SetBounds(e + |values|);
      Facts();
      WriteAll(e, values);
    }

    /** The loop of that function. */
    method WriteAll(e: nat, values: seq<Option<T>>)
      requires Valid() && ownerID != null && size == |elems| == e + |values|
      modifies Writable()
      ensures Valid() && size == old(size) && ownerID == old(ownerID) && elems == old(elems)[..e] + values
      ensures forall n | n in nodes && n !in old(nodes) :: fresh(n) && n.ownerID == ownerID
      ensures old(altered) ==> altered
      ensures !altered ==> elems == old(elems)
    {
      hide Rep, ViewOf;
      var k := 0;
      while k < |values|
        invariant 0 <= k <= |values| && Valid() && size == |elems| == e + |values| && ownerID == old(ownerID)
        invariant elems[..e + k] == old(elems)[..e] + values[..k]
        invariant forall x | x in nodes && x !in old(nodes) :: fresh(x) && x.ownerID == ownerID
        invariant (old(altered) ==> altered) && (!altered ==> elems == old(elems))
      {
        OneAppended(elems, old(elems)[..e], values, e, k);
        var n := SetAt(e + k, values[k]);
        k := k + 1;
      }
      assert values[..k] == values && elems[..e + k] == elems;
    }

    lemma OneAppended<E>(m: seq<E>, first: seq<E>, values: seq<E>, e: nat, k: nat)
      requires k < |values| && e + k < |m| && m[..e + k] == first + values[..k]
      ensures m[e + k := values[k]][..e + k + 1] == first + values[..k + 1]
    {
      assert values[..k + 1] == values[..k] + [values[k]];
      assert m[e + k := values[k]][..e + k + 1] == m[..e + k] + [values[k]];
    }

    /** `push` of any number of values. */
    method Push(values: seq<Option<T>>) returns (r: List<T>)
      requires Valid() && size + |values| < MAX_CAPACITY
      modifies Writable()
      ensures r.Valid() && r.elems == Kept(old(View()), old(size) + |values|) + values && Derived(r)
      ensures r.ownerID != null && !r.altered ==> !old(altered) && r.elems == old(elems)
    {
      hide Rep, ViewOf, Grown;
      var m := AsMutable();
      m.Append(values);
      r := DoneMutating(m);
    }

    /** `pop` */
    method Pop() returns (r: List<T>)
      requires Valid()
      modifies Writable()
      ensures r.Valid() && Derived(r) && r.size == (if old(size) == 0 then 0 else old(size) - 1)
      ensures r.elems == if old(elems) == [] then [] else old(elems)[..|old(elems)| - 1]
      ensures var s, x := old(size) - 1, old(View());
        && (0 < s ==> CutTo(x, r.View()))
        && (old(ownerID) == null && 0 < s && (TailOffset(s) == x.Offset() || TailOffset(s) == Pow32(x.level)) ==>
              r.View().blocks == x.blocks && r.level == x.level)
      ensures r.ownerID != null && !r.altered ==> !old(altered) && r.elems == old(elems)
    {
      hide Rep, ViewOf;
      Facts();
      BoundIs(size, -1);
      r := SetBounds(-1);
      r.Facts();
    }

    /** `setSize` */
    method Resize(n: int) returns (r: List<T>)
      requires Valid() && Bound(size, n) < MAX_CAPACITY
      modifies Writable()
      ensures r.Valid() && Derived(r) && r.elems == Outcome(old(View()), SizeOp(n))
      ensures r.elems == Applied(old(elems), SizeOp(n)) <==> Faithful(old(View()), SizeOp(n))
      ensures r.ownerID != null && !r.altered ==> !old(altered) && r.elems == old(elems)
    {
      hide Rep, ViewOf, Grown, Reveals, Int32;
      Facts();
      OutcomeIff(View(), SizeOp(n));
      r := SetBounds(n);
      r.Facts();
    }

    /** One call on a list; calls that would need an origin other than 0 or go beyond the capacity are not made. The
        result is that of the call on the plain sequence exactly if it reveals nothing left in the trie. */
    method Apply(op: Op<T>) returns (r: List<T>)
      requires Valid()
      modifies Writable()
      ensures r.Valid() && Derived(r) && r.elems == Outcome(old(View()), op)
      ensures r.elems == Applied(old(elems), op) <==> Faithful(old(View()), op)
      ensures r.ownerID != null && !r.altered ==> !old(altered) && r.elems == old(elems)
    {
      hide Rep, ViewOf, Grown, CutTo, Put, Faithful, Applied, Kept, Int32;
      Facts();
      OutcomeIff(View(), op);
      r := this;
      match op
      case SetOp(index, v) =>
        if 0 <= Wrapped(size, index) < MAX_CAPACITY - 1 { r := Set(index, v); }
      case PushOp(values) =>
        if size + |values| < MAX_CAPACITY { r := Push(values); }
      case PopOp => r := Pop();
      case SizeOp(n) =>
        if Bound(size, n) < MAX_CAPACITY { r := Resize(n); }
    }

    /** `withMutations`, for a function that makes the given calls; views are those of the mutable list between them. */
    method WithMutations(calls: seq<Op<T>>) returns (r: List<T>, ghost views: seq<View<T>>)
      requires Valid()
      modifies Writable()
      ensures r.Valid() && Derived(r)
      ensures Traced(views, calls) && views[0] == old(View()) && r.elems == views[|calls|].Elems()
      ensures r.ownerID != null && !r.altered ==> !old(altered) && r.elems == old(elems)
    {
      hide Rep, ViewOf, Traced;
      var m := AsMutable();
      views := m.ApplyAll(calls);
      r := DoneMutating(m);
    }

    method ApplyAll(calls: seq<Op<T>>) returns (ghost views: seq<View<T>>)
      requires Valid() && ownerID != null
      modifies Writable()
      ensures Valid() && ownerID == old(ownerID)
      ensures Traced(views, calls) && views[0] == old(View()) && views[|calls|] == View()
      ensures elems == views[|calls|].Elems()
      ensures forall n | n in nodes && n !in old(nodes) :: fresh(n) && n.ownerID == ownerID
      ensures !altered ==> !old(altered) && elems == old(elems)
    {
      hide Rep, ViewOf, Faithful, Applied, Outcome;
      Facts();
      views := [View()];
      var k := 0;
      while k < |calls|
        invariant 0 <= k <= |calls| && Valid() && ownerID == old(ownerID)
        invariant Traced(views, calls[..k]) && views[0] == old(View()) && views[k] == View()
        invariant forall n | n in nodes && n !in old(nodes) :: fresh(n) && n.ownerID == ownerID
        invariant !altered ==> !old(altered) && elems == old(elems)
      {
        Facts();
        var n := Apply(calls[k]);
        Facts();
        views := views + [View()];
        k := k + 1;
      }
      assert calls[..k] == calls;
      Facts();
    }
  }

  datatype Op<T> = SetOp(index: int, v: Option<T>) | PushOp(values: seq<Option<T>>) | PopOp | SizeOp(n: int)

  /** The plain sequence after a call; where it grows, it is filled up with undefined. */
  function Applied<T>(m: seq<Option<T>>, op: Op<T>): seq<Option<T>> {
    match op
    case SetOp(index, v) =>
      var i := Wrapped(|m|, index);
      if !(0 <= i < MAX_CAPACITY - 1) then m
      else if i < |m| then m[i := v] else m + Nones(i - |m|) + [v]
    case PushOp(values) => if |m| + |values| < MAX_CAPACITY then m + values else m
    case PopOp => if m == [] then [] else m[..|m| - 1]
    case SizeOp(n) =>
      var s := Bound(|m|, n);
      if s <= 0 then [] else if s <= |m| then m[..s] else if s < MAX_CAPACITY then m + Nones(s - |m|) else m
  }

  /** The size that `Ne` makes of its bound: a number of 32 bits, from the end if it is negative. */
  function Bound(size: nat, n: int): int {
    if Int32(n) < 0 then size + Int32(n) else Int32(n)
  }

  lemma BoundIs(size: nat, n: int)
    requires -MAX_CAPACITY <= n < MAX_CAPACITY
    ensures Bound(size, n) == if n < 0 then size + n else n
  {
  }

  /** The calls on a plain sequence, one by one. */
  lemma AppliedIs<T>(m: seq<Option<T>>, index: int, v: Option<T>, values: seq<Option<T>>, n: int)
    requires |m| + |values| < MAX_CAPACITY && -0x8000_0000 <= n < MAX_CAPACITY && index < MAX_CAPACITY - 1
    ensures 0 <= index < |m| ==> Applied(m, SetOp(index, v)) == m[index := v]
    ensures -|m| <= index < 0 ==> Applied(m, SetOp(index, v)) == m[|m| + index := v]
    ensures index >= |m| ==> var r := Applied(m, SetOp(index, v));
      |r| == index + 1 && r[..|m|] == m && r[index] == v && forall i | |m| <= i < index :: r[i].None?
    ensures Applied(m, PushOp(values)) == m + values
    ensures m != [] ==> Applied(m, PopOp) == m[..|m| - 1]
    ensures m == [] ==> Applied(m, PopOp) == []
    ensures 0 <= n <= |m| ==> Applied(m, SizeOp(n)) == m[..n]
    ensures -|m| <= n < 0 ==> Applied(m, SizeOp(n)) == m[..|m| + n]
    ensures n < -|m| ==> Applied(m, SizeOp(n)) == []
    ensures n > |m| ==> var r := Applied(m, SizeOp(n));
      |r| == n && r[..|m|] == m && forall i | |m| <= i < n :: r[i].None?
  {
  }

  function AppliedAll<T>(m: seq<Option<T>>, calls: seq<Op<T>>): seq<Option<T>>
    decreases |calls|
  {
    if calls == [] then m else AppliedAll(Applied(m, calls[0]), calls[1..])
  }

  /** The call reveals no block that an earlier, longer list left in the trie. */
  ghost predicate Faithful<T>(x: View<T>, op: Op<T>) {
    match op
    case SetOp(index, v) =>
      var i := Wrapped(x.size, index);
      x.size <= i < MAX_CAPACITY - 1 ==> !Reveals(x, i + 1)
    case PushOp(values) => x.size < x.size + |values| < MAX_CAPACITY ==> !LosesTail(x, x.size + |values|)
    case PopOp => true
    case SizeOp(n) => x.size < Bound(x.size, n) < MAX_CAPACITY ==> !Reveals(x, Bound(x.size, n))
  }

  /** What a call makes of a list, whatever it reveals: what is seen then, from what the list showed of its trie. */
  ghost function Outcome<T>(x: View<T>, op: Op<T>): seq<Option<T>> {
    match op
    case SetOp(index, v) =>
      var i := Wrapped(x.size, index);
      if !(0 <= i < MAX_CAPACITY - 1) then x.Elems()
      else if i < x.size then x.Elems()[i := v] else Grown(x, i + 1).Elems()[i := v]
    case PushOp(values) =>
      if x.size + |values| < MAX_CAPACITY then Kept(x, x.size + |values|) + values else x.Elems()
    case PopOp => if x.size == 0 then [] else x.Elems()[..x.size - 1]
    case SizeOp(n) =>
      var s := Bound(x.size, n);
      if s <= 0 then [] else if s <= x.size then x.Elems()[..s]
      else if s < MAX_CAPACITY then Grown(x, s).Elems() else x.Elems()
  }

  /** It is what the call makes of the plain sequence, exactly if the call is faithful. */
  lemma OutcomeIff<T>(x: View<T>, op: Op<T>)
    requires x.Ok()
    ensures Outcome(x, op) == Applied(x.Elems(), op) <==> Faithful(x, op)
  {
    hide Grown, Reveals, LosesTail, Kept, Int32, View.At;
    match op
    case SetOp(index, v) =>
      if x.size <= Wrapped(x.size, index) < MAX_CAPACITY - 1 { ExactSet(x, index, v); }
    case PushOp(values) =>
      if x.size + |values| < MAX_CAPACITY { ExactPush(x, values); }
    case PopOp =>
    case SizeOp(n) =>
      if x.size < Bound(x.size, n) < MAX_CAPACITY { GrownElems(x, Bound(x.size, n)); }
  }

  /** Calls one after the other: what the list shows of its trie before and after each. */
  ghost predicate Traced<T>(views: seq<View<T>>, calls: seq<Op<T>>) {
    && |views| == |calls| + 1 && (forall k | 0 <= k < |views| :: views[k].Ok())
    && forall k | 0 <= k < |calls| :: views[k + 1].Elems() == Outcome(views[k], calls[k])
  }

  ghost predicate AllFaithful<T>(views: seq<View<T>>, calls: seq<Op<T>>)
    requires |calls| <= |views|
  {
    forall k | 0 <= k < |calls| :: Faithful(views[k], calls[k])
  }

  /** Faithful calls together are the calls on the plain sequence, and safe ones are faithful. */
  lemma {:induction false} TracedApplied<T>(views: seq<View<T>>, calls: seq<Op<T>>)
    requires Traced(views, calls)
    ensures AllFaithful(views, calls) ==> views[|calls|].Elems() == AppliedAll(views[0].Elems(), calls)
    ensures SafeAll(views[0].Elems(), calls) ==> AllFaithful(views, calls)
    decreases |calls|
  {
    hide Outcome, Faithful, Applied, Safe, View.Ok, View.Elems;
    if calls != [] {
      assert Traced(views[1..], calls[1..]) by {
        assert forall k | 0 <= k < |calls| - 1 :: calls[1..][k] == calls[k + 1] && views[1..][k + 1] == views[k + 2];
      }
      TracedApplied(views[1..], calls[1..]);
      assert views[1].Elems() == Outcome(views[0], calls[0]);
      OutcomeIff(views[0], calls[0]);
      if Safe(views[0].Elems(), calls[0]) { SafeIsFaithful(views[0], calls[0]); }
      TailFaithful(views, calls);
    }
  }

  lemma TailFaithful<T>(views: seq<View<T>>, calls: seq<Op<T>>)
    requires calls != [] && |calls| < |views|
    ensures AllFaithful(views, calls) <==> Faithful(views[0], calls[0]) && AllFaithful(views[1..], calls[1..])
  {
    hide Faithful;
    if AllFaithful(views, calls) {
      forall k | 0 <= k < |calls| - 1 ensures Faithful(views[1..][k], calls[1..][k]) {
        assert Faithful(views[k + 1], calls[k + 1]);
      }
    }
    if Faithful(views[0], calls[0]) && AllFaithful(views[1..], calls[1..]) {
      forall k | 0 <= k < |calls| ensures Faithful(views[k], calls[k]) {
        if k > 0 { assert Faithful(views[1..][k - 1], calls[1..][k - 1]); }
      }
    }
  }

  /** A caller can tell from the plain sequence that a call is faithful: it does not lengthen the list, or the list does
      not end in undefined and grows by what is written. */
  predicate Safe<T>(m: seq<Option<T>>, op: Op<T>) {
    var ends := m == [] || m[|m| - 1].Some?;
    match op
    case SetOp(index, v) => Wrapped(|m|, index) < |m| || (Wrapped(|m|, index) == |m| && ends)
    case PushOp(values) => |values| == 0 || ends
    case PopOp => true
    case SizeOp(n) => Bound(|m|, n) <= |m|
  }

  predicate SafeAll<T>(m: seq<Option<T>>, calls: seq<Op<T>>)
    decreases |calls|
  {
    calls == [] || (Safe(m, calls[0]) && SafeAll(Applied(m, calls[0]), calls[1..]))
  }

  lemma SafeIsFaithful<T>(x: View<T>, op: Op<T>)
    requires x.Ok() && Safe(x.Elems(), op)
    ensures Faithful(x, op)
  {
    if x.size == 0 || x.At(x.size - 1).Some? { TailHolds(x); }
    if x.size + 1 < MAX_CAPACITY { OneMore(x); }
  }

  /** Growing by what a call adds, seen on the plain sequence. */
  lemma ExactSet<T>(x: View<T>, index: int, v: Option<T>)
    requires x.Ok() && x.size <= Wrapped(x.size, index) < MAX_CAPACITY - 1
    ensures var i := Wrapped(x.size, index);
      Grown(x, i + 1).Elems()[i := v] == Applied(x.Elems(), SetOp(index, v)) <==> Faithful(x, SetOp(index, v))
  {
    hide Grown, Reveals, LosesTail, View.Elems, View.At, View.Ok;
    var i := Wrapped(x.size, index);
    GrownElems(x, i + 1);
    LastUnseen(x, i);
    SetLast(Grown(x, i + 1).Elems(), x.Elems(), i, v);
  }

  lemma ExactPush<T>(x: View<T>, values: seq<Option<T>>)
    requires x.Ok() && x.size + |values| < MAX_CAPACITY
    ensures Kept(x, x.size + |values|) + values == x.Elems() + values <==> Faithful(x, PushOp(values))
  {
    hide Grown, Reveals, LosesTail;
    SameBefore(Kept(x, x.size + |values|), x.Elems(), values);
    if values != [] { GrownPrefix(x, x.size + |values|); }
  }

  lemma SameBefore<E>(a: seq<E>, b: seq<E>, c: seq<E>)
    requires |a| == |b|
    ensures a + c == b + c <==> a == b
  {
    assert (a + c)[..|a|] == a && (b + c)[..|a|] == b;
  }

  lemma SetLast<E>(e: seq<Option<E>>, m: seq<Option<E>>, i: nat, v: Option<E>)
    requires |m| <= i && |e| == i + 1 && e[i].None?
    ensures e[i := v] == m + Nones(i - |m|) + [v] <==> e == m + Nones(i + 1 - |m|)
  {
    var f, g := m + Nones(i - |m|) + [v], m + Nones(i + 1 - |m|);
    assert f[..i] == g[..i] && f[i] == v && g[i] == None;
    assert e[i := v][..i] == e[..i];
    if e[i := v] == f { assert e == e[..i] + [e[i]] && g == g[..i] + [g[i]]; }
  }

  /** `N`: a negative index counts from the end. */
  function Wrapped(size: nat, index: int): int {
    if index < 0 then size + index else index
  }
}
