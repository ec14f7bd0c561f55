/** The hash trie of Immutable.Map, without owners: nodes are values. */
module HashTrie {
  import opened HashBits
  import opened Options

  const SIZE := 32
  const MAX_ARRAY_MAP_SIZE := SIZE / 4
  const MAX_BITMAP_INDEXED_SIZE := SIZE / 2
  const MIN_HASH_ARRAY_MAP_SIZE := SIZE / 4

  /** `Bt`, `Gt`, `Wt`, `qt` and `Jt`. */
  datatype Node<K, V> =
    | ArrayMap(entries: seq<(K, V)>)
    | Bitmap(bitmap: bv32, nodes: seq<Node<K, V>>)
    | HashArray(count: int, slots: seq<Option<Node<K, V>>>)
    | Collision(keyHash: bv32, entries: seq<(K, V)>)
    | Leaf(keyHash: bv32, entry: (K, V))

  /** `ee` */
  predicate IsLeaf<K, V>(n: Node<K, V>) {
    n.Leaf? || n.Collision?
  }

  /** The first entry with key k, or the number of entries. */
  function KeyIndex<K(==), V>(entries: seq<(K, V)>, k: K, from: nat := 0): (i: nat)
    requires from <= |entries|
    ensures from <= i <= |entries| && (i < |entries| ==> entries[i].0 == k)
    ensures forall j | from <= j < i :: entries[j].0 != k
    decreases |entries| - from
  {
    if from == |entries| || entries[from].0 == k then from else KeyIndex(entries, k, from + 1)
  }

  function Assoc<K(==), V>(entries: seq<(K, V)>, k: K): Option<V> {
    var i := KeyIndex(entries, k);
    if i < |entries| then Some(entries[i].1) else None
  }

  /** `get` of the five kinds of node. */
  function Get<K(==), V>(hash: K -> bv32, n: Node<K, V>, level: nat, k: K): Option<V>
    decreases n
  {
    match n
    case ArrayMap(entries) => Assoc(entries, k)
    case Bitmap(bitmap, nodes) =>
      var d := Digit(hash(k), level);
      var i := Rank(bitmap, d);
      if Tested(bitmap, d) && i < |nodes| then Get(hash, nodes[i], level + 1, k) else None
    case HashArray(_, slots) =>
      var i := Value(Digit(hash(k), level));
      if i < |slots| && slots[i].Some? then Get(hash, slots[i].value, level + 1, k) else None
    case Collision(_, entries) => Assoc(entries, k)
    case Leaf(_, entry) => if entry.0 == k then Some(entry.1) else None
  }

  function GetOpt<K(==), V>(hash: K -> bv32, n: Option<Node<K, V>>, level: nat, k: K): Option<V> {
    if n.None? then None else Get(hash, n.value, level, k)
  }

  /** The hash starts with the digits of the path. */
  ghost predicate Fits(h: bv32, path: seq<bv32>) {
    |path| <= 7 && forall m | 0 <= m < |path| :: Digit(h, m) == path[m]
  }

  ghost predicate Distinct<K, V>(entries: seq<(K, V)>) {
    forall i, j | 0 <= i < j < |entries| :: entries[i].0 != entries[j].0
  }

  function CountSome<T>(slots: seq<Option<T>>): nat {
    if slots == [] then 0 else CountSome(slots[..|slots| - 1]) + if slots[|slots| - 1].Some? then 1 else 0
  }

  /** A node below the given path of digits: packed children are indexed by rank, a node of one child is no mere detour
      to a leaf, and the wide form is kept for eight children or more. */
  ghost predicate WF<K, V>(hash: K -> bv32, n: Node<K, V>, path: seq<bv32>)
    decreases n
  {
    match n
    case ArrayMap(_) => false
    case Leaf(h, entry) => h == hash(entry.0) && Fits(h, path)
    case Collision(h, entries) =>
      && |entries| >= 2 && Distinct(entries) && Fits(h, path)
      && forall i | 0 <= i < |entries| :: hash(entries[i].0) == h
    case Bitmap(bitmap, nodes) =>
      && |path| <= 6 && 1 <= |nodes| <= MAX_BITMAP_INDEXED_SIZE && |nodes| == CountBelow(bitmap, 32)
      && (|nodes| == 1 ==> !IsLeaf(nodes[0]))
      && forall d: bv32 | d < 32 && Has(bitmap, d) ::
           CountBelow(bitmap, d) < |nodes| && WF(hash, nodes[CountBelow(bitmap, d)], path + [d])
    case HashArray(count, slots) =>
      && |path| <= 6 && |slots| == SIZE && count == CountSome(slots) >= MIN_HASH_ARRAY_MAP_SIZE
      && forall d: bv32 | d < 32 && Value(d) < |slots| && slots[Value(d)].Some? ::
           WF(hash, slots[Value(d)].value, path + [d])
  }

  /** The child of an inner node for digit d. */
  ghost function Child<K, V>(n: Node<K, V>, d: bv32): Option<Node<K, V>>
    requires d < 32 && (n.Bitmap? || n.HashArray?)
  {
    match n
    case Bitmap(bitmap, nodes) =>
      if Has(bitmap, d) && CountBelow(bitmap, d) < |nodes| then Some(nodes[CountBelow(bitmap, d)]) else None
    case HashArray(_, slots) => if Value(d) < |slots| then slots[Value(d)] else None
  }

  /** The lookup in an inner node is the lookup in the child of its digit. */
  lemma GetInner<K, V>(hash: K -> bv32, n: Node<K, V>, level: nat, k: K)
    requires n.Bitmap? || n.HashArray?
    ensures Get(hash, n, level, k) == GetOpt(hash, Child(n, Digit(hash(k), level)), level + 1, k)
  {
    if n.Bitmap? {
      var d := Digit(hash(k), level);
      hide Rank, Has, CountBelow, Tested;
      RankCounts(n.bitmap, d);
      BitTested(n.bitmap, d);
    }
  }

  lemma ChildWF<K, V>(hash: K -> bv32, n: Node<K, V>, path: seq<bv32>, d: bv32)
    requires WF(hash, n, path) && (n.Bitmap? || n.HashArray?) && d < 32 && Child(n, d).Some?
    ensures WF(hash, Child(n, d).value, path + [d])
  {
  }

  /** A key found in a leaf has the hash of the leaf. */
  lemma FoundFits<K, V>(hash: K -> bv32, n: Node<K, V>, path: seq<bv32>, k: K)
    requires WF(hash, n, path) && IsLeaf(n) && Get(hash, n, |path|, k).Some?
    ensures hash(k) == n.keyHash
  {
  }

  /** The result r of setting (or, with None, removing) key k below a path in n, if there was an n. */
  ghost predicate Updated<K(!new), V>(hash: K -> bv32, n: Option<Node<K, V>>, r: Option<Node<K, V>>, path: seq<bv32>,
                                      k: K, v: Option<V>) {
    && (r.Some? ==> WF(hash, r.value, path))
    && forall x: K | Fits(hash(x), path) ::
         GetOpt(hash, r, |path|, x) == if x == k then v else GetOpt(hash, n, |path|, x)
  }

  lemma FitsOn(h: bv32, path: seq<bv32>, d: bv32)
    requires |path| <= 6
    ensures Fits(h, path + [d]) <==> Fits(h, path) && Digit(h, |path|) == d
  {
  }

  /** Replacing the child for the digit of k is an update of the node. */
  lemma SwitchChild<K(!new), V>(hash: K -> bv32, n: Node<K, V>, r: Node<K, V>, c: Option<Node<K, V>>, path: seq<bv32>,
                                k: K, v: Option<V>)
    requires |path| <= 6 && Fits(hash(k), path) && WF(hash, r, path)
    requires (n.Bitmap? || n.HashArray?) && (r.Bitmap? || r.HashArray?)
    requires var d := Digit(hash(k), |path|);
      && (forall e: bv32 | e < 32 :: Child(r, e) == if e == d then c else Child(n, e))
      && Updated(hash, Child(n, d), c, path + [d], k, v)
    ensures Updated(hash, Some(n), Some(r), path, k, v)
  {
    hide WF, Get, Child;
    var d := Digit(hash(k), |path|);
    forall x: K | Fits(hash(x), path)
      ensures Get(hash, r, |path|, x) == if x == k then v else Get(hash, n, |path|, x)
    {
      GetInner(hash, n, |path|, x);
      GetInner(hash, r, |path|, x);
      FitsOn(hash(x), path, d);
    }
  }

  /** A leaf may stand in for the node whose only child, for digit e, it is. */
  lemma LeafLifted<K(!new), V>(hash: K -> bv32, c: Node<K, V>, path: seq<bv32>, e: bv32)
    requires |path| <= 6 && IsLeaf(c) && WF(hash, c, path + [e])
    ensures WF(hash, c, path)
    ensures forall x: K | Fits(hash(x), path) ::
      Get(hash, c, |path|, x) == if Digit(hash(x), |path|) == e then Get(hash, c, |path| + 1, x) else None
  {
  }

  /** Hashes that agree on the first level digits and differ leave a digit to tell them apart. */
  predicate Agree(h: bv32, g: bv32, level: nat) {
    level <= 7 && forall m | 0 <= m < level :: Digit(h, m) == Digit(g, m)
  }

  lemma DigitsLeft(h: bv32, g: bv32, level: nat)
    requires Agree(h, g, level) && h != g
    ensures level <= 6 && (Digit(h, level) == Digit(g, level) ==> Agree(h, g, level + 1))
  {
    if level == 7 { SevenDigits(h, g); }
  }

  /** `ne`: a node for a leaf and an entry that does not belong in it. */
  function Merge<K, V>(t: Node<K, V>, level: nat, h: bv32, entry: (K, V)): Node<K, V>
    requires IsLeaf(t) && (t.Collision? ==> t.keyHash != h) && Agree(t.keyHash, h, level)
    decreases 7 - level
  {
    if t.keyHash == h then Collision(h, [t.entry, entry])
    else
      DigitsLeft(t.keyHash, h, level);
      var u, s := Digit(t.keyHash, level), Digit(h, level);
      Bitmap(With(With(0, u), s),
             if u == s then [Merge(t, level + 1, h, entry)]
             else if u < s then [t, Leaf(h, entry)] else [Leaf(h, entry), t])
  }

  /** The bitmap of one or two digits. */
  lemma TwoDigits(u: bv32, s: bv32)
    requires u < 32 && s < 32
    ensures var b := With(With(0, u), s);
      && CountBelow(b, 32) == (if u == s then 1 else 2)
      && CountBelow(b, u) == (if s < u then 1 else 0) && CountBelow(b, s) == (if u < s then 1 else 0)
      && forall e: bv32 | e < 32 :: Has(b, e) <==> e == u || e == s
  {
    hide With, Has, CountBelow;
    var a := With(0, u);
    EmptyBitmap(u);
    forall e: bv32 | e < 32 ensures Has(With(a, s), e) <==> e == u || e == s {
      EmptyBitmap(e);
      BitWith(0, u, e);
      BitWith(a, s, e);
    }
    forall n: bv32 | n <= 32 ensures CountBelow(a, n) == if u < n then 1 else 0 {
      EmptyCount(n);
      CountWith(0, u, n);
    }
    BitWith(0, u, s);
    EmptyBitmap(s);
    if u == s {
      SameWith(u);
    } else {
      CountWith(a, s, 32);
      CountWith(a, s, u);
      CountWith(a, s, s);
    }
  }

  lemma EmptyBitmap(e: bv32)
    requires e < 32
    ensures !Has(0, e)
  {
  }

  lemma {:induction false} EmptyCount(n: bv32)
    requires n <= 32
    ensures CountBelow(0, n) == 0
  {
    if n > 0 {
      EmptyCount(n - 1);
      EmptyBitmap(n - 1);
    }
  }

  lemma SameWith(u: bv32)
    requires u < 32
    ensures With(With(0, u), u) == With(0, u)
  {
  }

  lemma TwoEntries<K(!new), V>(hash: K -> bv32, t: Node<K, V>, path: seq<bv32>, k: K, v: V)
    requires WF(hash, t, path) && t.Leaf? && t.keyHash == hash(k) && t.entry.0 != k && Fits(hash(k), path)
    ensures Updated(hash, Some(t), Some(Collision(t.keyHash, [t.entry, (k, v)])), path, k, Some(v))
  {
    var es := [t.entry, (k, v)];
    forall x: K ensures Assoc(es, x) == if x == t.entry.0 then Some(t.entry.1) else if x == k then Some(v) else None {
      var i := KeyIndex(es, x);
      assert es[0] == t.entry && es[1] == (k, v);
    }
  }

  /** A leaf fits below the digit of its hash just as well. */
  lemma LowerLeaf<K(!new), V>(hash: K -> bv32, t: Node<K, V>, path: seq<bv32>)
    requires WF(hash, t, path) && IsLeaf(t) && |path| <= 6
    ensures WF(hash, t, path + [Digit(t.keyHash, |path|)])
    ensures forall x: K :: Get(hash, t, |path|, x) == Get(hash, t, |path| + 1, x)
  {
    FitsOn(t.keyHash, path, Digit(t.keyHash, |path|));
  }

  /** `ne` adds the entry to what the leaf holds, by splitting on the first digit that differs. */
  lemma {:induction false} MergeUpdates<K(!new), V>(hash: K -> bv32, t: Node<K, V>, path: seq<bv32>, k: K, v: V)
    requires WF(hash, t, path) && IsLeaf(t) && (t.Collision? ==> t.keyHash != hash(k))
    requires Fits(hash(k), path) && Get(hash, t, |path|, k) == None
    ensures Agree(t.keyHash, hash(k), |path|)
    ensures Updated(hash, Some(t), Some(Merge(t, |path|, hash(k), (k, v))), path, k, Some(v))
    decreases 7 - |path|
  {
    hide Updated, With, Digit, Assoc;
    var h := hash(k);
    assert Agree(t.keyHash, h, |path|);
    var r := Merge(t, |path|, h, (k, v));
    if t.keyHash == h {
      TwoEntries(hash, t, path, k, v);
    } else {
      DigitsLeft(t.keyHash, h, |path|);
      LowerLeaf(hash, t, path);
      var u, s := Digit(t.keyHash, |path|), Digit(h, |path|);
      FitsOn(h, path, s);
      if u == s {
        MergeUpdates(hash, t, path + [u], k, v);
        SplitFurther(hash, t, r.nodes[0], path, k, v);
      } else {
        SplitHere(hash, t, path, k, v);
      }
    }
  }

  /** `ne` where the digits agree. */
  lemma SplitFurther<K(!new), V>(hash: K -> bv32, t: Node<K, V>, c: Node<K, V>, path: seq<bv32>, k: K, v: V)
    requires WF(hash, t, path) && IsLeaf(t) && |path| <= 6 && Fits(hash(k), path)
    requires Digit(hash(k), |path|) == Digit(t.keyHash, |path|) && c.Bitmap?
    requires Updated(hash, Some(t), Some(c), path + [Digit(hash(k), |path|)], k, Some(v))
    ensures var u := Digit(hash(k), |path|);
      Updated(hash, Some(t), Some(Bitmap(With(With(0, u), u), [c])), path, k, Some(v))
  {
    var u := Digit(hash(k), |path|);
    var r := Bitmap(With(With(0, u), u), [c]);
    FurtherWF(hash, c, path, u);
    hide With;
    FurtherLookups(hash, t, r, c, path, k, v);
  }

  lemma FurtherWF<K, V>(hash: K -> bv32, c: Node<K, V>, path: seq<bv32>, u: bv32)
    requires |path| <= 6 && u < 32 && c.Bitmap? && WF(hash, c, path + [u])
    ensures var r := Bitmap(With(With(0, u), u), [c]);
      WF(hash, r, path) && forall e: bv32 | e < 32 :: Child(r, e) == if e == u then Some(c) else None
  {
    TwoDigits(u, u);
    hide With, Has, CountBelow;
  }

  lemma FurtherLookups<K(!new), V>(hash: K -> bv32, t: Node<K, V>, r: Node<K, V>, c: Node<K, V>, path: seq<bv32>, k: K,
                                   v: V)
    requires WF(hash, t, path) && IsLeaf(t) && |path| <= 6 && Fits(hash(k), path) && r.Bitmap?
    requires Digit(hash(k), |path|) == Digit(t.keyHash, |path|)
    requires Updated(hash, Some(t), Some(c), path + [Digit(hash(k), |path|)], k, Some(v))
    requires forall e: bv32 | e < 32 :: Child(r, e) == if e == Digit(hash(k), |path|) then Some(c) else None
    ensures forall x: K | Fits(hash(x), path) ::
      Get(hash, r, |path|, x) == if x == k then Some(v) else Get(hash, t, |path|, x)
  {
    hide Child, WF, Get, Digit, Fits;
    LowerLeaf(hash, t, path);
    forall x: K | Fits(hash(x), path)
      ensures Get(hash, r, |path|, x) == if x == k then Some(v) else Get(hash, t, |path|, x)
    {
      GetInner(hash, r, |path|, x);
      FitsOn(hash(x), path, Digit(hash(k), |path|));
      if Get(hash, t, |path|, x).Some? { FoundFits(hash, t, path, x); }
    }
  }

  /** `ne` where the digits differ. */
  lemma SplitHere<K(!new), V>(hash: K -> bv32, t: Node<K, V>, path: seq<bv32>, k: K, v: V)
    requires WF(hash, t, path) && IsLeaf(t) && |path| <= 6 && Fits(hash(k), path)
    requires Digit(hash(k), |path|) != Digit(t.keyHash, |path|)
    ensures var u, s, leaf := Digit(t.keyHash, |path|), Digit(hash(k), |path|), Leaf(hash(k), (k, v));
      Updated(hash, Some(t), Some(Bitmap(With(With(0, u), s), if u < s then [t, leaf] else [leaf, t])),
              path, k, Some(v))
  {
    var u, s, leaf := Digit(t.keyHash, |path|), Digit(hash(k), |path|), Leaf(hash(k), (k, v));
    var r := Bitmap(With(With(0, u), s), if u < s then [t, leaf] else [leaf, t]);
    LowerLeaf(hash, t, path);
    FitsOn(hash(k), path, s);
    SplitWF(hash, t, leaf, path, u, s);
    SplitChildren(t, leaf, u, s);
    hide With;
    SplitLookups(hash, t, r, path, k, v);
  }

  lemma SplitWF<K, V>(hash: K -> bv32, t: Node<K, V>, c: Node<K, V>, path: seq<bv32>, u: bv32, s: bv32)
    requires |path| <= 6 && u < 32 && s < 32 && u != s && WF(hash, t, path + [u]) && WF(hash, c, path + [s])
    ensures WF(hash, Bitmap(With(With(0, u), s), if u < s then [t, c] else [c, t]), path)
  {
    hide With, Has, CountBelow, WF, Rank, Tested, Digit, Value;
    var b := With(With(0, u), s);
    TwoDigits(u, s);
    assert CountBelow(b, 32) == 2;
    if u < s {
      assert CountBelow(b, u) == 0 && CountBelow(b, s) == 1;
      BitmapWF(hash, b, [t, c], path);
    } else {
      assert CountBelow(b, u) == 1 && CountBelow(b, s) == 0;
      BitmapWF(hash, b, [c, t], path);
    }
  }

  /** What makes a bitmap node well-formed. */
  lemma BitmapWF<K, V>(hash: K -> bv32, bitmap: bv32, nodes: seq<Node<K, V>>, path: seq<bv32>)
    requires |path| <= 6 && 1 <= |nodes| <= MAX_BITMAP_INDEXED_SIZE && |nodes| == CountBelow(bitmap, 32)
    requires |nodes| == 1 ==> !IsLeaf(nodes[0])
    requires forall d: bv32 | d < 32 && Has(bitmap, d) ::
      CountBelow(bitmap, d) < |nodes| && WF(hash, nodes[CountBelow(bitmap, d)], path + [d])
    ensures WF(hash, Bitmap(bitmap, nodes), path)
  {
  }

  lemma SplitChildren<K, V>(t: Node<K, V>, c: Node<K, V>, u: bv32, s: bv32)
    requires u < 32 && s < 32 && u != s
    ensures var r := Bitmap(With(With(0, u), s), if u < s then [t, c] else [c, t]);
      forall e: bv32 | e < 32 :: Child(r, e) == if e == u then Some(t) else if e == s then Some(c) else None
  {
    TwoDigits(u, s);
    hide With, Has, CountBelow;
  }

  lemma SplitLookups<K(!new), V>(hash: K -> bv32, t: Node<K, V>, r: Node<K, V>, path: seq<bv32>, k: K, v: V)
    requires WF(hash, t, path) && IsLeaf(t) && |path| <= 6 && Fits(hash(k), path) && r.Bitmap?
    requires Digit(t.keyHash, |path|) != Digit(hash(k), |path|)
    requires forall e: bv32 | e < 32 ::
      Child(r, e) == if e == Digit(t.keyHash, |path|) then Some(t)
                     else if e == Digit(hash(k), |path|) then Some(Leaf(hash(k), (k, v))) else None
    ensures forall x: K | Fits(hash(x), path) ::
      Get(hash, r, |path|, x) == if x == k then Some(v) else Get(hash, t, |path|, x)
  {
    hide CountBelow, Has, Child;
    LowerLeaf(hash, t, path);
    forall x: K | Fits(hash(x), path)
      ensures Get(hash, r, |path|, x) == if x == k then Some(v) else Get(hash, t, |path|, x)
    {
      GetInner(hash, r, |path|, x);
      if Get(hash, t, |path|, x).Some? { FoundFits(hash, t, path, x); }
    }
  }

  /** The entries with the one at c taken out: the last one moves into its place. */
  function Dropped<K, V>(entries: seq<(K, V)>, c: nat): (r: seq<(K, V)>)
    requires c < |entries|
    ensures |r| == |entries| - 1
  {
    var last := |entries| - 1;
    if c == last then entries[..last] else entries[..last][c := entries[last]]
  }

  lemma AssocIs<K, V>(entries: seq<(K, V)>, i: nat)
    requires Distinct(entries) && i < |entries|
    ensures Assoc(entries, entries[i].0) == Some(entries[i].1)
  {
  }

  lemma DroppedAssoc<K, V>(entries: seq<(K, V)>, c: nat, x: K)
    requires Distinct(entries) && c < |entries|
    ensures Distinct(Dropped(entries, c))
    ensures Assoc(Dropped(entries, c), x) == if x == entries[c].0 then None else Assoc(entries, x)
  {
  }

  lemma ReplacedAssoc<K, V>(entries: seq<(K, V)>, c: nat, v: V, x: K)
    requires Distinct(entries) && c < |entries|
    ensures Distinct(entries[c := (entries[c].0, v)])
    ensures Assoc(entries[c := (entries[c].0, v)], x) == if x == entries[c].0 then Some(v) else Assoc(entries, x)
  {
    var r, i := entries[c := (entries[c].0, v)], KeyIndex(entries, x);
    if i < |entries| { AssocIs(r, i); }
    AssocIs(r, c);
    var j := KeyIndex(r, x);
  }

  lemma PushedAssoc<K, V>(entries: seq<(K, V)>, k: K, v: V, x: K)
    requires Distinct(entries) && KeyIndex(entries, k) == |entries|
    ensures Distinct(entries + [(k, v)])
    ensures Assoc(entries + [(k, v)], x) == if x == k then Some(v) else Assoc(entries, x)
  {
    var r, i := entries + [(k, v)], KeyIndex(entries, x);
    if i < |entries| { assert r[i] == entries[i]; AssocIs(r, i); }
    assert r[|entries|] == (k, v);
    AssocIs(r, |entries|);
    var j := KeyIndex(r, x);
  }

  // ---- Packed children --------------------------------------------------------------------------------------------

  /** r has the children of n, except that c is its child for digit d. */
  ghost predicate Switched<K, V>(n: Node<K, V>, r: Node<K, V>, d: bv32, c: Option<Node<K, V>>) {
    && d < 32 && (n.Bitmap? || n.HashArray?) && (r.Bitmap? || r.HashArray?)
    && forall e: bv32 | e < 32 :: Child(r, e) == if e == d then c else Child(n, e)
  }

  lemma BitmapShape<K, V>(hash: K -> bv32, n: Node<K, V>, path: seq<bv32>)
    requires n.Bitmap? && WF(hash, n, path)
    ensures |path| <= 6 && 1 <= |n.nodes| <= MAX_BITMAP_INDEXED_SIZE && |n.nodes| == CountBelow(n.bitmap, 32)
    ensures |n.nodes| == 1 ==> !IsLeaf(n.nodes[0])
  {
  }

  /** Digits in a bitmap have ranks of their own, in order. */
  lemma RanksDiffer(bitmap: bv32, d: bv32, e: bv32)
    requires d < 32 && e < 32 && Has(bitmap, d)
    ensures CountBelow(bitmap, d) < CountBelow(bitmap, 32)
    ensures d < e ==> CountBelow(bitmap, d) < CountBelow(bitmap, e)
    ensures Has(bitmap, e) && e < d ==> CountBelow(bitmap, e) < CountBelow(bitmap, d)
    ensures e < d ==> CountBelow(bitmap, e) <= CountBelow(bitmap, d)
  {
    CountMonotone(bitmap, d, 32);
    if d < e { CountMonotone(bitmap, d, e); }
    if e < d { CountMonotone(bitmap, e, d); }
  }

  lemma BitmapReplaced<K, V>(hash: K -> bv32, n: Node<K, V>, path: seq<bv32>, d: bv32, c: Node<K, V>)
    requires n.Bitmap? && WF(hash, n, path) && d < 32 && Has(n.bitmap, d) && WF(hash, c, path + [d])
    requires |n.nodes| == 1 ==> !IsLeaf(c)
    ensures CountBelow(n.bitmap, d) < |n.nodes|
    ensures var r := Bitmap(n.bitmap, n.nodes[CountBelow(n.bitmap, d) := c]);
      WF(hash, r, path) && Switched(n, r, d, Some(c))
  {
    hide Has, CountBelow;
    RanksDiffer(n.bitmap, d, d);
    var r := Bitmap(n.bitmap, n.nodes[CountBelow(n.bitmap, d) := c]);
    forall e: bv32 | e < 32
      ensures Child(r, e) == if e == d then Some(c) else Child(n, e)
      ensures Has(n.bitmap, e) ==>
        CountBelow(n.bitmap, e) < |r.nodes| && WF(hash, r.nodes[CountBelow(n.bitmap, e)], path + [e])
    {
      RanksDiffer(n.bitmap, d, e);
    }
    BitmapWF(hash, n.bitmap, r.nodes, path);
  }

  lemma BitmapInserted<K, V>(hash: K -> bv32, n: Node<K, V>, path: seq<bv32>, d: bv32, l: nat, c: Node<K, V>)
    requires n.Bitmap? && WF(hash, n, path) && d < 32 && !Has(n.bitmap, d) && WF(hash, c, path + [d])
    requires |n.nodes| < MAX_BITMAP_INDEXED_SIZE && l == CountBelow(n.bitmap, d)
    ensures l <= |n.nodes|
    ensures WF(hash, Bitmap(With(n.bitmap, d), n.nodes[..l] + [c] + n.nodes[l..]), path)
    ensures Switched(n, Bitmap(With(n.bitmap, d), n.nodes[..l] + [c] + n.nodes[l..]), d, Some(c))
  {
    hide Has, CountBelow, With;
    CountMonotone(n.bitmap, d, 32);
    CountWith(n.bitmap, d, 32);
    var r := Bitmap(With(n.bitmap, d), n.nodes[..l] + [c] + n.nodes[l..]);
    forall e: bv32 | e < 32
      ensures Child(r, e) == if e == d then Some(c) else Child(n, e)
      ensures Has(r.bitmap, e) ==>
        CountBelow(r.bitmap, e) < |r.nodes| && WF(hash, r.nodes[CountBelow(r.bitmap, e)], path + [e])
    {
      hide WF;
      InsertedAt(n, d, l, c, e);
      if e != d && Has(n.bitmap, e) { ChildWF(hash, n, path, e); }
    }
    BitmapWF(hash, r.bitmap, r.nodes, path);
  }

  lemma InsertedAt<K, V>(n: Node<K, V>, d: bv32, l: nat, c: Node<K, V>, e: bv32)
    requires n.Bitmap? && d < 32 && !Has(n.bitmap, d) && |n.nodes| == CountBelow(n.bitmap, 32)
      && l == CountBelow(n.bitmap, d)
    requires l <= |n.nodes| && e < 32
    ensures var r := Bitmap(With(n.bitmap, d), n.nodes[..l] + [c] + n.nodes[l..]);
      && Child(r, e) == (if e == d then Some(c) else Child(n, e))
      && (Has(r.bitmap, e) <==> Child(r, e).Some?) && (Has(n.bitmap, e) <==> Child(n, e).Some?)
  {
    hide Has, CountBelow, With;
    CountWith(n.bitmap, d, e);
    BitWith(n.bitmap, d, e);
    if e < d { CountMonotone(n.bitmap, e, d); }
    if d < e { CountMonotone(n.bitmap, d, e); }
    CountMonotone(n.bitmap, e, 32);
  }

  lemma BitmapRemoved<K, V>(hash: K -> bv32, n: Node<K, V>, path: seq<bv32>, d: bv32, l: nat)
    requires n.Bitmap? && WF(hash, n, path) && d < 32 && Has(n.bitmap, d) && |n.nodes| >= 2
    requires l == CountBelow(n.bitmap, d) < |n.nodes| && (|n.nodes| == 2 ==> !IsLeaf(n.nodes[1 - l]))
    ensures WF(hash, Bitmap(Toggled(n.bitmap, d), n.nodes[..l] + n.nodes[l + 1..]), path)
    ensures Switched(n, Bitmap(Toggled(n.bitmap, d), n.nodes[..l] + n.nodes[l + 1..]), d, None)
  {
    hide Has, CountBelow, Toggled;
    CountToggled(n.bitmap, d, 32);
    var r := Bitmap(Toggled(n.bitmap, d), n.nodes[..l] + n.nodes[l + 1..]);
    forall e: bv32 | e < 32
      ensures Child(r, e) == if e == d then None else Child(n, e)
      ensures Has(r.bitmap, e) ==>
        CountBelow(r.bitmap, e) < |r.nodes| && WF(hash, r.nodes[CountBelow(r.bitmap, e)], path + [e])
    {
      hide WF;
      RemovedAt(n, d, l, e);
      if e != d && Has(n.bitmap, e) { ChildWF(hash, n, path, e); }
    }
    BitmapWF(hash, r.bitmap, r.nodes, path);
  }

  lemma RemovedAt<K, V>(n: Node<K, V>, d: bv32, l: nat, e: bv32)
    requires n.Bitmap? && d < 32 && Has(n.bitmap, d) && |n.nodes| == CountBelow(n.bitmap, 32)
      && l == CountBelow(n.bitmap, d)
    requires l < |n.nodes| && e < 32
    ensures var r := Bitmap(Toggled(n.bitmap, d), n.nodes[..l] + n.nodes[l + 1..]);
      && Child(r, e) == (if e == d then None else Child(n, e))
      && (Has(r.bitmap, e) <==> Child(r, e).Some?) && (Has(n.bitmap, e) <==> Child(n, e).Some?)
  {
    hide Has, CountBelow, Toggled;
    CountToggled(n.bitmap, d, e);
    BitToggled(n.bitmap, d, e);
    RanksDiffer(n.bitmap, d, e);
    if Has(n.bitmap, e) { RanksDiffer(n.bitmap, e, d); }
  }

  /** Of two children, the one that is left may stand for the node if it is a leaf. */
  lemma SiblingLeft<K(!new), V>(hash: K -> bv32, n: Node<K, V>, path: seq<bv32>, k: K, l: nat)
    requires n.Bitmap? && WF(hash, n, path) && |n.nodes| == 2 && Fits(hash(k), path)
    requires Has(n.bitmap, Digit(hash(k), |path|)) && l == CountBelow(n.bitmap, Digit(hash(k), |path|)) < 2
    requires IsLeaf(n.nodes[1 - l])
    requires Updated(hash, Some(n.nodes[l]), None, path + [Digit(hash(k), |path|)], k, None)
    ensures Updated(hash, Some(n), Some(n.nodes[1 - l]), path, k, None)
  {
    hide WF, CountBelow, Has, Get, Fits;
    var d, c := Digit(hash(k), |path|), n.nodes[1 - l];
    BitmapShape(hash, n, path);
    var e := Other(n.bitmap, d);
    TwoChildren(n, d, e);
    ChildWF(hash, n, path, e);
    LeafLifted(hash, c, path, e);
    SiblingLookups(hash, n, path, k, e, n.nodes[l], c);
  }

  lemma SiblingLookups<K(!new), V>(hash: K -> bv32, n: Node<K, V>, path: seq<bv32>, k: K, e: bv32, was: Node<K, V>,
                                   c: Node<K, V>)
    requires n.Bitmap? && |path| <= 6 && Fits(hash(k), path) && e != Digit(hash(k), |path|)
    requires forall f: bv32 | f < 32 ::
      Child(n, f) == if f == Digit(hash(k), |path|) then Some(was) else if f == e then Some(c) else None
    requires forall x: K | Fits(hash(x), path) ::
      Get(hash, c, |path|, x) == if Digit(hash(x), |path|) == e then Get(hash, c, |path| + 1, x) else None
    requires Updated(hash, Some(was), None, path + [Digit(hash(k), |path|)], k, None)
    ensures forall x: K | Fits(hash(x), path) ::
      Get(hash, c, |path|, x) == if x == k then None else Get(hash, n, |path|, x)
  {
    hide WF, Get, Child;
    forall x: K | Fits(hash(x), path)
      ensures Get(hash, c, |path|, x) == if x == k then None else Get(hash, n, |path|, x)
    {
      GetInner(hash, n, |path|, x);
      FitsOn(hash(x), path, Digit(hash(k), |path|));
    }
  }

  lemma TwoChildren<K, V>(n: Node<K, V>, d: bv32, e: bv32)
    requires n.Bitmap? && |n.nodes| == 2 == CountBelow(n.bitmap, 32) && d < 32 && e < 32 && d != e
    requires Has(n.bitmap, d) && Has(n.bitmap, e) && CountBelow(n.bitmap, d) < 2
      && CountBelow(n.bitmap, e) == 1 - CountBelow(n.bitmap, d)
    ensures forall f: bv32 | f < 32 ::
      Child(n, f) == if f == d then Some(n.nodes[CountBelow(n.bitmap, d)])
                     else if f == e then Some(n.nodes[CountBelow(n.bitmap, e)]) else None
  {
    hide Has, CountBelow;
    forall f: bv32 | f < 32 && Has(n.bitmap, f) ensures f == d || f == e {
      RanksDiffer(n.bitmap, f, d);
      RanksDiffer(n.bitmap, f, e);
      RanksDiffer(n.bitmap, d, f);
      RanksDiffer(n.bitmap, e, f);
    }
  }

  /** The digit beside d in a bitmap of two. */
  lemma Other(bitmap: bv32, d: bv32) returns (e: bv32)
    requires d < 32 && Has(bitmap, d) && CountBelow(bitmap, 32) == 2
    ensures e < 32 && e != d && Has(bitmap, e) && CountBelow(bitmap, d) < 2
      && CountBelow(bitmap, e) == 1 - CountBelow(bitmap, d)
  {
    hide Has, CountBelow;
    RanksDiffer(bitmap, d, d);
    CountToggled(bitmap, d, 32);
    e := AnyDigit(Toggled(bitmap, d), 32);
    BitToggled(bitmap, d, e);
    RanksDiffer(bitmap, e, d);
    RanksDiffer(bitmap, d, e);
  }

  lemma {:induction false} AnyDigit(bitmap: bv32, n: bv32) returns (e: bv32)
    requires n <= 32 && CountBelow(bitmap, n) > 0
    ensures e < n && Has(bitmap, e)
  {
    hide Has;
    if Has(bitmap, n - 1) { e := n - 1; } else { e := AnyDigit(bitmap, n - 1); }
  }

  /** An only child that has become a leaf may stand for the node. */
  lemma OnlyChild<K(!new), V>(hash: K -> bv32, n: Node<K, V>, path: seq<bv32>, k: K, v: Option<V>, c: Node<K, V>)
    requires n.Bitmap? && WF(hash, n, path) && |n.nodes| == 1 && Fits(hash(k), path) && IsLeaf(c)
    requires Has(n.bitmap, Digit(hash(k), |path|))
    requires Updated(hash, Some(n.nodes[0]), Some(c), path + [Digit(hash(k), |path|)], k, v)
    ensures Updated(hash, Some(n), Some(c), path, k, v)
  {
    hide WF, CountBelow, Has, Get, Fits, Child;
    var d := Digit(hash(k), |path|);
    BitmapShape(hash, n, path);
    OneChild(n, d);
    LeafLifted(hash, c, path, d);
    forall x: K | Fits(hash(x), path)
      ensures Get(hash, c, |path|, x) == if x == k then v else Get(hash, n, |path|, x)
    {
      GetInner(hash, n, |path|, x);
      FitsOn(hash(x), path, d);
    }
  }

  lemma OneChild<K, V>(n: Node<K, V>, d: bv32)
    requires n.Bitmap? && |n.nodes| == 1 == CountBelow(n.bitmap, 32) && d < 32 && Has(n.bitmap, d)
    ensures forall f: bv32 | f < 32 :: Child(n, f) == if f == d then Some(n.nodes[0]) else None
  {
    hide Has, CountBelow;
    forall f: bv32 | f < 32 && Has(n.bitmap, f) ensures f == d && CountBelow(n.bitmap, f) == 0 {
      RanksDiffer(n.bitmap, f, d);
      RanksDiffer(n.bitmap, d, f);
    }
    RanksDiffer(n.bitmap, d, d);
  }

  // ---- The wide form ----------------------------------------------------------------------------------------------

  lemma ValueBelow(d: bv32)
    requires d < 32
    ensures Value(d) < 32
  {
  }

  lemma ValueNext(d: bv32)
    requires d < 32
    ensures Value(d + 1) == Value(d) + 1
  {
  }

  lemma ValuesDiffer(d: bv32, e: bv32)
    requires d <= 32 && e <= 32
    ensures Value(d) == Value(e) ==> d == e
    ensures d < e <==> Value(d) < Value(e)
  {
  }

  lemma {:induction false} CountSlots<T>(bits: bv32, slots: seq<Option<T>>, n: bv32)
    requires n <= 32 && Value(n) <= |slots|
    requires forall e: bv32 | e < n :: Value(e) < |slots| && (slots[Value(e)].Some? <==> Has(bits, e))
    ensures CountSome(slots[..Value(n)]) == CountBelow(bits, n)
  {
    hide Value, Has, CountBelow;
    if n == 0 {
      ValueZero();
      NoneBelow(bits);
    } else {
      ValueNext(n - 1);
      ValuesDiffer(n - 1, n);
      CountSlots(bits, slots, n - 1);
      CountNext(bits, n);
      assert slots[..Value(n)][..Value(n) - 1] == slots[..Value(n - 1)];
    }
  }

  lemma ValueZero()
    ensures Value(0) == 0 && Value(32) == 32
  {
  }

  lemma {:induction false} SetCount<T>(slots: seq<Option<T>>, i: nat, x: Option<T>)
    requires i < |slots|
    ensures CountSome(slots[i := x]) ==
      CountSome(slots) - (if slots[i].Some? then 1 else 0) + (if x.Some? then 1 else 0)
  {
    var last, r := |slots| - 1, slots[i := x];
    if i == last {
      assert r[..last] == slots[..last];
    } else {
      SetCount(slots[..last], i, x);
      assert r[..last] == slots[..last][i := x];
    }
  }

  /** What makes a wide node well-formed. */
  lemma HashArrayWF<K, V>(hash: K -> bv32, n: Node<K, V>, path: seq<bv32>)
    requires |path| <= 6 && n.HashArray? && |n.slots| == SIZE
      && n.count == CountSome(n.slots) >= MIN_HASH_ARRAY_MAP_SIZE
    requires forall d: bv32 | d < 32 && Child(n, d).Some? :: WF(hash, Child(n, d).value, path + [d])
    ensures WF(hash, n, path)
  {
  }

  lemma HashArrayShape<K, V>(hash: K -> bv32, n: Node<K, V>, path: seq<bv32>)
    requires n.HashArray? && WF(hash, n, path)
    ensures |path| <= 6 && |n.slots| == SIZE && n.count == CountSome(n.slots) >= MIN_HASH_ARRAY_MAP_SIZE
  {
  }

  lemma SlotSet<K, V>(hash: K -> bv32, n: Node<K, V>, r: Node<K, V>, path: seq<bv32>, d: bv32, c: Option<Node<K, V>>)
    requires n.HashArray? && WF(hash, n, path) && d < 32 && (c.Some? ==> WF(hash, c.value, path + [d]))
    requires Value(d) < |n.slots| && r.HashArray? && r.slots == n.slots[Value(d) := c]
    requires r.count == n.count - (if n.slots[Value(d)].Some? then 1 else 0) + (if c.Some? then 1 else 0)
    requires r.count >= MIN_HASH_ARRAY_MAP_SIZE
    ensures WF(hash, r, path) && Switched(n, r, d, c)
  {
    hide Value, WF;
    HashArrayShape(hash, n, path);
    SetCount(n.slots, Value(d), c);
    forall e: bv32 | e < 32
      ensures Child(r, e) == if e == d then c else Child(n, e)
      ensures Child(r, e).Some? ==> WF(hash, Child(r, e).value, path + [e])
    {
      ValuesDiffer(d, e);
      if e != d && Child(n, e).Some? { ChildWF(hash, n, path, e); }
    }
    HashArrayWF(hash, r, path);
  }

  /** Going from one form of node to the other keeps the children and so the lookups. */
  lemma Expanded<K, V>(hash: K -> bv32, n: Node<K, V>, r: Node<K, V>, path: seq<bv32>, d: bv32, c: Node<K, V>)
    requires n.Bitmap? && WF(hash, n, path) && |n.nodes| == MAX_BITMAP_INDEXED_SIZE && d < 32 && !Has(n.bitmap, d)
    requires WF(hash, c, path + [d])
    requires r.HashArray? && |r.slots| == SIZE && r.count == |n.nodes| + 1 && Switched(n, r, d, Some(c))
    ensures WF(hash, r, path)
  {
    hide Value, WF, Has, With, CountBelow;
    BitmapShape(hash, n, path);
    CountWith(n.bitmap, d, 32);
    forall e: bv32 | e < 32
      ensures Value(e) < 32 && (r.slots[Value(e)].Some? <==> Has(With(n.bitmap, d), e))
      ensures Child(r, e).Some? ==> WF(hash, Child(r, e).value, path + [e])
    {
      ValueBelow(e);
      BitWith(n.bitmap, d, e);
      assert Child(r, e) == if e == d then Some(c) else Child(n, e);
      if Has(n.bitmap, e) { RanksDiffer(n.bitmap, e, e); }
      if e != d && Child(n, e).Some? { ChildWF(hash, n, path, e); }
    }
    ValueZero();
    CountSlots(With(n.bitmap, d), r.slots, 32);
    assert r.slots[..32] == r.slots;
    HashArrayWF(hash, r, path);
  }

  lemma Packed<K, V>(hash: K -> bv32, n: Node<K, V>, r: Node<K, V>, path: seq<bv32>, d: bv32)
    requires n.HashArray? && WF(hash, n, path) && d < 32 && Child(n, d).Some? && n.count == MIN_HASH_ARRAY_MAP_SIZE
    requires PackedTo(n, r, d, 32)
    ensures WF(hash, r, path) && Switched(n, r, d, None)
  {
    hide Value, WF, Has, CountBelow;
    HashArrayShape(hash, n, path);
    ValueBelow(d);
    var slots := n.slots[Value(d) := None];
    SetCount(n.slots, Value(d), None);
    forall e: bv32 | e < 32
      ensures Value(e) < 32 && (slots[Value(e)].Some? <==> Has(r.bitmap, e))
    {
      ValueBelow(e);
      ValuesDiffer(d, e);
    }
    ValueZero();
    CountSlots(r.bitmap, slots, 32);
    assert slots[..32] == slots;
    forall e: bv32 | e < 32 && Has(r.bitmap, e)
      ensures CountBelow(r.bitmap, e) < |r.nodes| && WF(hash, r.nodes[CountBelow(r.bitmap, e)], path + [e])
    {
      RanksDiffer(r.bitmap, e, e);
      assert Child(r, e) == Child(n, e);
      ChildWF(hash, n, path, e);
    }
    BitmapWF(hash, r.bitmap, r.nodes, path);
  }

  // ---- Updates ----------------------------------------------------------------------------------------------------

  /** What `te` does below a path: v is the new value of k, or None for the removal; `altered` and `sized` are the two
      flags it sets. An unaltered node is returned as it is. */
  ghost predicate Outcome<K(!new), V>(hash: K -> bv32, n: Option<Node<K, V>>, r: Option<Node<K, V>>, path: seq<bv32>,
                                      k: K, v: Option<V>, altered: bool, sized: bool) {
    var was := GetOpt(hash, n, |path|, k);
    && Updated(hash, n, r, path, k, v)
    && (altered <==> v != was)
    && (!altered ==> r == n)
    && (sized <==> v.Some? != was.Some?)
    && (n.Some? && !n.value.Leaf? ==> r.Some?)
  }

  /** The search loop of `get` and `update`. */
  method IndexOf<K(==), V>(entries: seq<(K, V)>, k: K) returns (c: nat)
    ensures c == KeyIndex(entries, k)
  {
    c := 0;
    while c < |entries| && k != entries[c].0
      invariant c <= |entries| && KeyIndex(entries, k) == KeyIndex(entries, k, c)
    {
      c := c + 1;
    }
  }

  /** The copy of an entry array with the change made to it: what `Bt` and `qt` share. */
  method EditEntries<K(==), V>(entries: seq<(K, V)>, c: nat, k: K, v: Option<V>) returns (p: seq<(K, V)>)
    requires Distinct(entries) && c == KeyIndex(entries, k) && (v.None? ==> c < |entries|)
    ensures Distinct(p) && forall x: K :: Assoc(p, x) == if x == k then v else Assoc(entries, x)
    ensures |p| == |entries| + (if v.None? then -1 else if c == |entries| then 1 else 0)
    ensures forall i | 0 <= i < |p| :: (p[i].0 == k && v.Some?) || p[i] in entries
  {
    p := entries;
    if c < |entries| {
      if v.None? {
        var last := p[|p| - 1];
        p := p[..|p| - 1];
        if c < |entries| - 1 { p := p[c := last]; }
        forall x: K ensures Assoc(p, x) == if x == k then v else Assoc(entries, x) { DroppedAssoc(entries, c, x); }
        DroppedAssoc(entries, c, k);
      } else {
        p := p[c := (k, v.value)];
        forall x: K ensures Assoc(p, x) == if x == k then v else Assoc(entries, x) {
          ReplacedAssoc(entries, c, v.value, x);
        }
        ReplacedAssoc(entries, c, v.value, k);
      }
    } else {
      p := p + [(k, v.value)];
      forall x: K ensures Assoc(p, x) == if x == k then v else Assoc(entries, x) {
        PushedAssoc(entries, k, v.value, x);
      }
      PushedAssoc(entries, k, v.value, k);
    }
  }

  /** `Jt.update` */
  method UpdateLeaf<K(!new,==), V(==)>(hash: K -> bv32, n: Node<K, V>, ghost path: seq<bv32>, level: nat, k: K,
                                       v: Option<V>)
    returns (r: Option<Node<K, V>>, altered: bool, sized: bool)
    requires n.Leaf? && WF(hash, n, path) && Fits(hash(k), path) && level == |path|
    ensures Outcome(hash, Some(n), r, path, k, v, altered, sized)
  {
    var same := k == n.entry.0;
    if if same then v == Some(n.entry.1) else v.None? { return Some(n), false, false; }
    if v.None? { return None, true, true; }
    if same { return Some(Leaf(n.keyHash, (k, v.value))), true, false; }
    MergeUpdates(hash, n, path, k, v.value);
    return Some(Merge(n, level, hash(k), (k, v.value))), true, true;
  }

  /** `qt.update` */
  method UpdateCollision<K(!new,==), V(==)>(hash: K -> bv32, n: Node<K, V>, ghost path: seq<bv32>, level: nat, h: bv32,
                                             k: K, v: Option<V>)
    returns (r: Option<Node<K, V>>, altered: bool, sized: bool)
    requires n.Collision? && WF(hash, n, path) && Fits(hash(k), path) && level == |path| && h == hash(k)
    ensures Outcome(hash, Some(n), r, path, k, v, altered, sized)
  {
    if h != n.keyHash {
      if Get(hash, n, level, k).Some? { FoundFits(hash, n, path, k); }
      if v.None? { return Some(n), false, false; }
      MergeUpdates(hash, n, path, k, v.value);
      return Some(Merge(n, level, h, (k, v.value))), true, true;
    }
    var c := IndexOf(n.entries, k);
    if if c < |n.entries| then v == Some(n.entries[c].1) else v.None? { return Some(n), false, false; }
    altered := true;
    sized := v.None? || c == |n.entries|;
    if v.None? && |n.entries| == 2 {
      var other := n.entries[1 - c];
      return Some(Leaf(n.keyHash, other)), altered, sized;
    }
    var p := EditEntries(n.entries, c, k, v);
    r := Some(Collision(n.keyHash, p));
  }

  /** The insertion loop of `Gt.update`. */
  method SpliceIn<T>(a: seq<T>, l: nat, x: T) returns (b: seq<T>)
    requires l <= |a|
    ensures b == a[..l] + [x] + a[l..]
  {
    var o := new T[|a| + 1](_ => x);
    var u, s := 0, 0;
    while s < |a| + 1
      invariant s <= |a| + 1 && u == if s <= l then 0 else -1
      invariant o[..s] == (a[..l] + [x] + a[l..])[..s]
    {
      if s == l { o[s] := x; u := -1; } else { o[s] := a[s + u]; }
      s := s + 1;
    }
    b := o[..];
  }

  /** The removal loop of `Gt.update`. */
  method SpliceOut<T>(a: seq<T>, l: nat) returns (b: seq<T>)
    requires l < |a|
    ensures b == a[..l] + a[l + 1..]
  {
    var x := a[0];
    var i := new T[|a| - 1](_ => x);
    var o, u := 0, 0;
    while u < |a| - 1
      invariant u <= |a| - 1 && o == if u <= l then 0 else 1
      invariant i[..u] == (a[..l] + a[l + 1..])[..u]
    {
      if u == l { o := 1; }
      i[u] := a[u + o];
      u := u + 1;
    }
    b := i[..];
  }

  function Halved(m: bv32): bv32 {
    m >> 1
  }

  predicate Odd(m: bv32) {
    m & 1 == 1
  }

  function From(bm: bv32, s: bv32): bv32
    requires s <= 32
  {
    bm >> s
  }

  lemma ShiftedBit(bm: bv32, s: bv32)
    requires s < 32
    ensures Halved(From(bm, s)) == From(bm, s + 1)
    ensures Odd(From(bm, s)) <==> Has(bm, s)
  {
  }

  lemma ShiftedOff(bm: bv32)
    ensures From(bm, 32) == 0
  {
  }

  lemma ShiftOn(bm: bv32, s: bv32)
    requires s <= 32 && From(bm, s) != 0
    ensures s < 32 && Halved(From(bm, s)) == From(bm, s + 1)
    ensures Odd(From(bm, s)) <==> Has(bm, s)
  {
    hide *;
    ShiftedOff(bm);
    ShiftedBit(bm, s);
  }

  lemma ShiftDone(bm: bv32, s: bv32, e: bv32)
    requires s <= e < 32 && From(bm, s) == 0
    ensures !Has(bm, e)
  {
  }

  lemma NoShift(bm: bv32)
    ensures From(bm, 0) == bm
  {
  }

  lemma {:induction false} CountFlat(bm: bv32, s: bv32, n: bv32)
    requires s <= n <= 32 && forall e: bv32 | s <= e < n :: !Has(bm, e)
    ensures CountBelow(bm, s) == CountBelow(bm, n)
    decreases n
  {
    hide Has, CountBelow;
    if s < n {
      CountNext(bm, n);
      CountFlat(bm, s, n - 1);
    }
  }

  /** The slots for the digits below s hold the packed children, and the others are free. */
  ghost predicate Filled<K, V>(slots: seq<Option<Node<K, V>>>, n: Node<K, V>, s: bv32)
    requires n.Bitmap? && s <= 32
  {
    && |slots| == SIZE
    && forall e: bv32 | e < 32 :: Value(e) < 32 && slots[Value(e)] == if e < s then Child(n, e) else None
  }

  lemma FilledNext<K, V>(slots: seq<Option<Node<K, V>>>, n: Node<K, V>, s: bv32)
    requires n.Bitmap? && s < 32 && Filled(slots, n, s)
    ensures Value(s) < 32 && Filled(slots[Value(s) := Child(n, s)], n, s + 1)
  {
  }

  lemma FilledUp<K, V>(slots: seq<Option<Node<K, V>>>, n: Node<K, V>, s: bv32, d: bv32, c: Node<K, V>, count: nat)
    requires n.Bitmap? && s <= 32 && Filled(slots, n, s) && From(n.bitmap, s) == 0 && d < 32
    ensures Value(d) < 32 && Switched(n, HashArray(count, slots[Value(d) := Some(c)]), d, Some(c))
  {
    hide Value;
    forall e: bv32 | e < 32
      ensures Value(e) < 32 && (Value(e) == Value(d) ==> e == d) && (s <= e ==> !Has(n.bitmap, e))
    {
      ValueBelow(e);
      ValuesDiffer(e, d);
      if s <= e { ShiftDone(n.bitmap, s, e); }
    }
    hide Has, CountBelow, From;
    var r := HashArray(count, slots[Value(d) := Some(c)]);
    forall e: bv32 | e < 32 ensures Child(r, e) == if e == d then Some(c) else Child(n, e) {
      assert slots[Value(e)] == if e < s then Child(n, e) else None;
    }
  }

  lemma FilledNone<K, V>(n: Node<K, V>)
    requires n.Bitmap?
    ensures Filled(seq(SIZE, _ => None), n, 0)
  {
  }

  /** The expansion loop of `Gt.update`: from packed children to a slot for every digit. */
  method ExpandNodes<K, V>(nodes: seq<Node<K, V>>, bitmap: bv32, d: bv32, c: Node<K, V>) returns (r: Node<K, V>)
    requires d < 32 && !Has(bitmap, d) && |nodes| == CountBelow(bitmap, 32)
    ensures r.HashArray? && |r.slots| == SIZE && r.count == |nodes| + 1
    ensures Switched(Bitmap(bitmap, nodes), r, d, Some(c))
  {
    hide Has, CountBelow, Value, Filled, Switched, From, Halved, Odd;
    ghost var n := Bitmap(bitmap, nodes);
    var u: array<Option<Node<K, V>>> := new Option<Node<K, V>>[SIZE](_ => None);
    assert u[..] == seq(SIZE, _ => None);
    var o, s: bv32, m := 0, 0, bitmap;
    NoShift(bitmap);
    NoneBelow(bitmap);
    FilledNone(n);
    while m != 0
      invariant s <= 32 && m == From(bitmap, s) && o == CountBelow(bitmap, s) && Filled(u[..], n, s)
      decreases 32 - Value(s)
    {
      ShiftOn(bitmap, s);
      ValueBelow(s);
      ValueNext(s);
      CountNext(bitmap, s + 1);
      FilledNext(u[..], n, s);
      if Odd(m) {
        RanksDiffer(bitmap, s, s);
        u[Value(s)] := Some(nodes[o]);
        o := o + 1;
      } else {
        u[Value(s)] := None;
      }
      s, m := s + 1, Halved(m);
    }
    forall e: bv32 | s <= e < 32 ensures !Has(bitmap, e) { ShiftDone(bitmap, s, e); }
    CountFlat(bitmap, s, 32);
    FilledUp(u[..], n, s, d, c, o + 1);
    u[Value(d)] := Some(c);
    r := HashArray(o + 1, u[..]);
  }

  /** r packs the children of n for the digits below s other than d. */
  ghost predicate PackedTo<K, V>(n: Node<K, V>, r: Node<K, V>, d: bv32, s: bv32) {
    && n.HashArray? && r.Bitmap? && |r.nodes| == CountBelow(r.bitmap, 32)
    && forall e: bv32 | e < 32 ::
         && (Has(r.bitmap, e) <==> Child(r, e).Some?)
         && Child(r, e) == if e < s && e != d then Child(n, e) else None
  }

  lemma PackedNone<K, V>(n: Node<K, V>, d: bv32)
    requires n.HashArray?
    ensures PackedTo(n, Bitmap(0, []), d, 0)
  {
    EmptyCount(32);
    hide CountBelow, Has;
    forall e: bv32 | e < 32 ensures !Has(0, e) { EmptyBitmap(e); }
  }

  lemma PackedNext<K, V>(n: Node<K, V>, r: Node<K, V>, d: bv32, s: bv32, c: Node<K, V>)
    requires s < 32 && PackedTo(n, r, d, s) && s != d && Child(n, s) == Some(c)
    ensures PackedTo(n, Bitmap(With(r.bitmap, s), r.nodes + [c]), d, s + 1)
  {
    hide CountBelow, Has, With;
    CountFlat(r.bitmap, s, 32);
    CountWith(r.bitmap, s, 32);
    assert r.nodes[..|r.nodes|] + [c] + r.nodes[|r.nodes|..] == r.nodes + [c];
    hide Child;
    forall e: bv32 | e < 32
      ensures var t := Bitmap(With(r.bitmap, s), r.nodes + [c]);
        (Has(t.bitmap, e) <==> Child(t, e).Some?) && Child(t, e) == if e < s + 1 && e != d then Child(n, e) else None
    {
      InsertedAt(r, s, |r.nodes|, c, e);
      assert e < s + 1 <==> e < s || e == s;
    }
  }

  lemma PackedSkip<K, V>(n: Node<K, V>, r: Node<K, V>, d: bv32, s: bv32)
    requires s < 32 && PackedTo(n, r, d, s) && (s == d || Child(n, s).None?)
    ensures PackedTo(n, r, d, s + 1)
  {
  }

  /** The packing loop of `Wt.update`: the children in use, except the one for digit d. */
  method PackNodes<K, V>(n: Node<K, V>, d: bv32) returns (r: Node<K, V>)
    requires n.HashArray? && |n.slots| == SIZE && d < 32
    ensures r.Bitmap? && PackedTo(n, r, d, 32)
  {
    hide PackedTo, Value, With;
    var bits: bv32, packed, s: bv32 := 0, [], 0;
    PackedNone(n, d);
    while s < 32
      invariant s <= 32 && PackedTo(n, Bitmap(bits, packed), d, s)
      decreases 32 - Value(s)
    {
      ValueBelow(s);
      ValueNext(s);
      var f := n.slots[Value(s)];
      if f.Some? && s != d {
        PackedNext(n, Bitmap(bits, packed), d, s, f.value);
        bits, packed := With(bits, s), packed + [f.value];
      } else {
        PackedSkip(n, Bitmap(bits, packed), d, s);
      }
      s := s + 1;
    }
    r := Bitmap(bits, packed);
  }

  /** How an inner node is updated when its child for the digit of k is: the flags are those of the child. */
  lemma InnerOutcome<K(!new), V>(hash: K -> bv32, n: Node<K, V>, r: Node<K, V>, was: Option<Node<K, V>>,
      path: seq<bv32>,
                                 k: K, v: Option<V>, c: Option<Node<K, V>>, altered: bool, sized: bool)
    requires (n.Bitmap? || n.HashArray?) && |path| <= 6 && Fits(hash(k), path)
    requires was == Child(n, Digit(hash(k), |path|)) && altered
    requires Outcome(hash, was, c, path + [Digit(hash(k), |path|)], k, v, altered, sized)
    requires WF(hash, r, path) && Switched(n, r, Digit(hash(k), |path|), c)
    ensures Outcome(hash, Some(n), Some(r), path, k, v, altered, sized)
  {
    hide WF, Child, Digit, Fits;
    GetInner(hash, n, |path|, k);
    SwitchChild(hash, n, r, c, path, k, v);
  }

  /** The same where a leaf takes the place of the node. */
  lemma LeafOutcome<K(!new), V>(hash: K -> bv32, n: Node<K, V>, r: Node<K, V>, was: Option<Node<K, V>>, path: seq<bv32>,
                                k: K, v: Option<V>, c: Option<Node<K, V>>, altered: bool, sized: bool)
    requires (n.Bitmap? || n.HashArray?) && |path| <= 6
    requires was == Child(n, Digit(hash(k), |path|)) && altered
    requires Outcome(hash, was, c, path + [Digit(hash(k), |path|)], k, v, altered, sized)
    requires Updated(hash, Some(n), Some(r), path, k, v)
    ensures Outcome(hash, Some(n), Some(r), path, k, v, altered, sized)
  {
    hide WF, Child, Digit, Updated;
    GetInner(hash, n, |path|, k);
  }

  lemma SameOutcome<K(!new), V>(hash: K -> bv32, n: Node<K, V>, path: seq<bv32>, k: K, v: Option<V>)
    requires WF(hash, n, path) && Get(hash, n, |path|, k) == v
    ensures Outcome(hash, Some(n), Some(n), path, k, v, false, false)
  {
  }

  /** `te` */
  method UpdateOpt<K(!new,==), V(==)>(hash: K -> bv32, n: Option<Node<K, V>>, ghost path: seq<bv32>, level: nat,
      h: bv32,
                                      k: K, v: Option<V>)
    returns (r: Option<Node<K, V>>, altered: bool, sized: bool)
    requires n.Some? ==> WF(hash, n.value, path)
    requires Fits(hash(k), path) && level == |path| && h == hash(k)
    ensures Outcome(hash, n, r, path, k, v, altered, sized)
    decreases 7 - level, 1
  {
    if n.None? {
      if v.None? { return None, false, false; }
      return Some(Leaf(h, (k, v.value))), true, true;
    }
    match n.value
    case Leaf(_, _) => r, altered, sized := UpdateLeaf(hash, n.value, path, level, k, v);
    case Collision(_, _) => r, altered, sized := UpdateCollision(hash, n.value, path, level, h, k, v);
    case Bitmap(_, _) => r, altered, sized := UpdateBitmap(hash, n.value, path, level, h, k, v);
    case HashArray(_, _) => r, altered, sized := UpdateHashArray(hash, n.value, path, level, h, k, v);
  }

  /** `Gt.update` */
  method UpdateBitmap<K(!new,==), V(==)>(hash: K -> bv32, n: Node<K, V>, ghost path: seq<bv32>, level: nat, h: bv32,
                                         k: K, v: Option<V>)
    returns (r: Option<Node<K, V>>, altered: bool, sized: bool)
    requires n.Bitmap? && WF(hash, n, path) && Fits(hash(k), path) && level == |path| && h == hash(k)
    ensures Outcome(hash, Some(n), r, path, k, v, altered, sized)
    decreases 7 - level, 0
  {
    hide WF, Outcome, Fits, Updated, Digit, Has, CountBelow, Rank, Tested, With, Toggled, Switched, Get;
    BitmapShape(hash, n, path);
    var d := Digit(h, level);
    var present := Tested(n.bitmap, d);
    BitTested(n.bitmap, d);
    ghost var below := path + [d];
    FitsOn(h, path, d);
    GetInner(hash, n, level, k);
    if !present && v.None? {
      SameOutcome(hash, n, path, k, v);
      return Some(n), false, false;
    }
    var l := Rank(n.bitmap, d);
    RankCounts(n.bitmap, d);
    if present { RanksDiffer(n.bitmap, d, d); }
    var was := if present then Some(n.nodes[l]) else None;
    if present { ChildWF(hash, n, path, d); }
    var c;
    c, altered, sized := UpdateOpt(hash, was, below, level + 1, h, k, v);
    OutcomeFacts(hash, was, c, below, k, v, altered, sized);
    if !altered {
      SameOutcome(hash, n, path, k, v);
      return Some(n), altered, sized;
    }
    if !present && c.Some? && |n.nodes| >= MAX_BITMAP_INDEXED_SIZE {
      var wide := ExpandNodes(n.nodes, n.bitmap, d, c.value);
      Expanded(hash, n, wide, path, d, c.value);
      InnerOutcome(hash, n, wide, was, path, k, v, c, altered, sized);
      return Some(wide), altered, sized;
    }
    if present && c.None? && |n.nodes| == 2 && IsLeaf(n.nodes[1 - l]) {
      SiblingLeft(hash, n, path, k, l);
      LeafOutcome(hash, n, n.nodes[1 - l], was, path, k, v, c, altered, sized);
      return Some(n.nodes[1 - l]), altered, sized;
    }
    if present && c.Some? && |n.nodes| == 1 && IsLeaf(c.value) {
      OnlyChild(hash, n, path, k, v, c.value);
      LeafOutcome(hash, n, c.value, was, path, k, v, c, altered, sized);
      return c, altered, sized;
    }
    var bitmap := if present then if c.Some? then n.bitmap else Toggled(n.bitmap, d) else With(n.bitmap, d);
    var nodes;
    if present && c.Some? {
      nodes := n.nodes[l := c.value];
      BitmapReplaced(hash, n, path, d, c.value);
    } else if present {
      nodes := SpliceOut(n.nodes, l);
      BitmapRemoved(hash, n, path, d, l);
    } else {
      BitmapInserted(hash, n, path, d, l, c.value);
      nodes := SpliceIn(n.nodes, l, c.value);
    }
    r := Some(Bitmap(bitmap, nodes));
    InnerOutcome(hash, n, r.value, was, path, k, v, c, altered, sized);
  }

  lemma OutcomeFacts<K(!new), V>(hash: K -> bv32, n: Option<Node<K, V>>, r: Option<Node<K, V>>, path: seq<bv32>,
                                 k: K, v: Option<V>, altered: bool, sized: bool)
    requires Outcome(hash, n, r, path, k, v, altered, sized) && Fits(hash(k), path)
    ensures Updated(hash, n, r, path, k, v) && (r.Some? ==> WF(hash, r.value, path))
    ensures !altered ==> v == GetOpt(hash, n, |path|, k) && r == n && !sized
    ensures v.Some? ==> r.Some?
    ensures n.Some? && !n.value.Leaf? ==> r.Some?
    ensures r.None? ==> v.None?
  {
  }

  /** `Wt.update` */
  method UpdateHashArray<K(!new,==), V(==)>(hash: K -> bv32, n: Node<K, V>, ghost path: seq<bv32>, level: nat, h: bv32,
                                            k: K, v: Option<V>)
    returns (r: Option<Node<K, V>>, altered: bool, sized: bool)
    requires n.HashArray? && WF(hash, n, path) && Fits(hash(k), path) && level == |path| && h == hash(k)
    ensures Outcome(hash, Some(n), r, path, k, v, altered, sized)
    decreases 7 - level, 0
  {
    hide WF, Outcome, Fits, Updated, Digit, Value, Switched, Get;
    HashArrayShape(hash, n, path);
    var d := Digit(h, level);
    ValueBelow(d);
    ghost var below := path + [d];
    FitsOn(h, path, d);
    GetInner(hash, n, level, k);
    var was := n.slots[Value(d)];
    if v.None? && was.None? {
      SameOutcome(hash, n, path, k, v);
      return Some(n), false, false;
    }
    if was.Some? { ChildWF(hash, n, path, d); }
    var c;
    c, altered, sized := UpdateOpt(hash, was, below, level + 1, h, k, v);
    OutcomeFacts(hash, was, c, below, k, v, altered, sized);
    if !altered {
      SameOutcome(hash, n, path, k, v);
      return Some(n), altered, sized;
    }
    var count := n.count;
    if was.None? {
      count := count + 1;
    } else if c.None? {
      count := count - 1;
      if count < MIN_HASH_ARRAY_MAP_SIZE {
        var packed := PackNodes(n, d);
        Packed(hash, n, packed, path, d);
        InnerOutcome(hash, n, packed, was, path, k, v, c, altered, sized);
        return Some(packed), altered, sized;
      }
    }
    r := Some(HashArray(count, n.slots[Value(d) := c]));
    SlotSet(hash, n, r.value, path, d, c);
    InnerOutcome(hash, n, r.value, was, path, k, v, c, altered, sized);
  }

  // ---- The map ----------------------------------------------------------------------------------------------------

  /** A root is missing, holds up to eight entries in an array, or is a trie. */
  ghost predicate RootWF<K, V>(hash: K -> bv32, n: Option<Node<K, V>>) {
    match n
    case None => true
    case Some(ArrayMap(entries)) => 1 <= |entries| <= MAX_ARRAY_MAP_SIZE && Distinct(entries)
    case Some(t) => WF(hash, t, [])
  }

  ghost predicate RootOutcome<K(!new), V>(hash: K -> bv32, n: Option<Node<K, V>>, r: Option<Node<K, V>>, k: K,
                                          v: Option<V>,
                                          altered: bool, sized: bool) {
    var was := GetOpt(hash, n, 0, k);
    && RootWF(hash, r)
    && (forall x: K :: GetOpt(hash, r, 0, x) == if x == k then v else GetOpt(hash, n, 0, x))
    && (altered <==> v != was)
    && (!altered ==> r == n)
    && (sized <==> v.Some? != was.Some?)
  }

  lemma EmptyPath(h: bv32)
    ensures Fits(h, [])
  {
  }

  lemma TrieRoot<K(!new), V>(hash: K -> bv32, n: Option<Node<K, V>>, r: Option<Node<K, V>>, k: K, v: Option<V>,
                             altered: bool, sized: bool)
    requires Outcome(hash, n, r, [], k, v, altered, sized)
    ensures RootOutcome(hash, n, r, k, v, altered, sized)
  {
  }

  /** `createNodes`, inlined in `Bt.update`: a trie of the new entry and the old ones. */
  method CreateNodes<K(!new,==), V(==)>(hash: K -> bv32, entries: seq<(K, V)>, k: K, v: V) returns (r: Node<K, V>)
    requires Distinct(entries) && KeyIndex(entries, k) == |entries|
    ensures WF(hash, r, []) && forall x: K :: Get(hash, r, 0, x) == if x == k then Some(v) else Assoc(entries, x)
  {
    r := Leaf(hash(k), (k, v));
    hide Outcome, WF, Get, Assoc, Fits;
    FirstLeaf(hash, k, v);
    EmptyPath(hash(k));
    var o := 0;
    NothingAssoc<K, V>();
    while o < |entries|
      invariant o <= |entries| && WF(hash, r, [])
      invariant forall x: K :: Get(hash, r, 0, x) == if x == k then Some(v) else Assoc(entries[..o], x)
    {
      var e := entries[o];
      EmptyPath(hash(e.0));
      var n, altered, sized := UpdateOpt(hash, Some(r), [], 0, hash(e.0), e.0, Some(e.1));
      OutcomeFacts(hash, Some(r), n, [], e.0, Some(e.1), altered, sized);
      TrieRoot(hash, Some(r), n, e.0, Some(e.1), altered, sized);
      forall x: K
        ensures Get(hash, n.value, 0, x) == if x == k then Some(v) else Assoc(entries[..o + 1], x)
      {
        NextAssoc(entries, o, x);
        assert GetOpt(hash, n, 0, x) == if x == e.0 then Some(e.1) else GetOpt(hash, Some(r), 0, x);
      }
      r := n.value;
      o := o + 1;
    }
    assert entries[..o] == entries;
  }

  lemma FirstLeaf<K(!new), V>(hash: K -> bv32, k: K, v: V)
    ensures var r := Leaf(hash(k), (k, v));
      WF(hash, r, []) && forall x: K :: Get(hash, r, 0, x) == if x == k then Some(v) else None
  {
  }

  lemma NothingAssoc<K(!new), V>()
    ensures forall x: K :: Assoc<K, V>([], x) == None
  {
  }

  lemma NextAssoc<K, V>(entries: seq<(K, V)>, o: nat, x: K)
    requires Distinct(entries) && o < |entries|
    ensures Assoc(entries[..o + 1], x) == if x == entries[o].0 then Some(entries[o].1) else Assoc(entries[..o], x)
  {
  }

  /** `Bt.update` */
  method UpdateArrayMap<K(!new,==), V(==)>(hash: K -> bv32, n: Node<K, V>, k: K, v: Option<V>)
    returns (r: Option<Node<K, V>>, altered: bool, sized: bool)
    requires n.ArrayMap? && RootWF(hash, Some(n))
    ensures RootOutcome(hash, Some(n), r, k, v, altered, sized)
  {
    hide WF, Fits;
    var c := IndexOf(n.entries, k);
    var found := c < |n.entries|;
    if if found then v == Some(n.entries[c].1) else v.None? { return Some(n), false, false; }
    altered := true;
    sized := v.None? || !found;
    if v.None? && |n.entries| == 1 {
      assert n.entries == [n.entries[0]];
      return None, altered, sized;
    }
    if !found && v.Some? && |n.entries| >= MAX_ARRAY_MAP_SIZE {
      var t := CreateNodes(hash, n.entries, k, v.value);
      TrieNotArray(hash, t);
      return Some(t), altered, sized;
    }
    var p := EditEntries(n.entries, c, k, v);
    r := Some(ArrayMap(p));
  }

  lemma TrieNotArray<K, V>(hash: K -> bv32, t: Node<K, V>)
    requires WF(hash, t, [])
    ensures RootWF(hash, Some(t))
  {
  }

  /** What `Ht` makes. */
  datatype HashMap<K, V> = HashMap(size: int, root: Option<Node<K, V>>)

  /** `Ut.get`, where None stands for the default value. */
  function Lookup<K(==), V>(hash: K -> bv32, m: HashMap<K, V>, k: K): Option<V> {
    GetOpt(hash, m.root, 0, k)
  }

  ghost predicate Represents<K(!new), V>(hash: K -> bv32, m: HashMap<K, V>, model: map<K, V>) {
    && RootWF(hash, m.root) && m.size == |model|
    && forall k: K :: Lookup(hash, m, k) == if k in model then Some(model[k]) else None
  }

  function Edited<K, V>(model: map<K, V>, k: K, v: Option<V>): map<K, V> {
    if v.Some? then model[k := v.value] else model - {k}
  }

  /** `$t`, for `set` and `remove`. */
  method UpdateMap<K(!new,==), V(==)>(hash: K -> bv32, m: HashMap<K, V>, k: K, v: Option<V>, ghost model: map<K, V>)
    returns (r: HashMap<K, V>)
    requires Represents(hash, m, model)
    ensures Represents(hash, r, Edited(model, k, v))
    ensures v == Lookup(hash, m, k) ==> r == m
  {
    hide Get, WF, Outcome;
    if m.root.None? {
      NoKeys(hash, m, model);
      if v.None? {
        assert Edited(model, k, v) == model;
        return m;
      }
      Single(hash, k, v.value);
      assert Edited(model, k, v) == map[k := v.value];
      return HashMap(1, Some(ArrayMap([(k, v.value)])));
    }
    var root, altered, sized;
    if m.root.value.ArrayMap? {
      root, altered, sized := UpdateArrayMap(hash, m.root.value, k, v);
    } else {
      EmptyPath(hash(k));
      root, altered, sized := UpdateOpt(hash, m.root, [], 0, hash(k), k, v);
      TrieRoot(hash, m.root, root, k, v, altered, sized);
    }
    EditedSize(model, k, v);
    if !altered {
      if v.None? { assert Edited(model, k, v) == model; } else { assert Edited(model, k, v) == model; }
      return m;
    }
    var size := m.size + if sized then if v.None? then -1 else 1 else 0;
    var made := HashMap(size, root);
    assert Represents(hash, made, Edited(model, k, v));
    if root.None? {
      NoKeys(hash, made, Edited(model, k, v));
      return HashMap(0, None);
    }
    return made;
  }

  lemma NoKeys<K(!new), V>(hash: K -> bv32, m: HashMap<K, V>, model: map<K, V>)
    requires Represents(hash, m, model) && m.root.None?
    ensures model == map[] && m.size == 0
  {
  }

  lemma Single<K(!new), V>(hash: K -> bv32, k: K, v: V)
    ensures Represents(hash, HashMap(1, Some(ArrayMap([(k, v)]))), map[k := v])
  {
  }

  lemma EditedSize<K, V>(model: map<K, V>, k: K, v: Option<V>)
    ensures |Edited(model, k, v)| - |model| ==
      if v.Some? then if k in model then 0 else 1 else if k in model then -1 else 0
  {
  }

  datatype Op<K, V> = Put(key: K, value: V) | Drop(key: K)

  /** The finite map that a run of operations leaves. */
  function After<K, V>(ops: seq<Op<K, V>>): map<K, V> {
    if ops == [] then map[] else
      var last := ops[|ops| - 1];
      Edited(After(ops[..|ops| - 1]), last.key, if last.Put? then Some(last.value) else None)
  }

  /** Every run of `set` and `remove` from the empty map represents the finite map of its operations, whatever the hash,
      and no map met on the way is touched by what is done later. */
  method Run<K(!new,==), V(==)>(hash: K -> bv32, ops: seq<Op<K, V>>) returns (versions: seq<HashMap<K, V>>)
    ensures |versions| == |ops| + 1
    ensures forall i | 0 <= i <= |ops| :: Represents(hash, versions[i], After(ops[..i]))
  {
    hide Represents, RootWF;
    var m := HashMap(0, None);
    EmptyRepresented(hash, m);
    versions := [m];
    var i := 0;
    while i < |ops|
      invariant i <= |ops| && |versions| == i + 1 && m == versions[i]
      invariant forall j | 0 <= j <= i :: Represents(hash, versions[j], After(ops[..j]))
    {
      var op := ops[i];
      assert ops[..i + 1][..i] == ops[..i];
      m := UpdateMap(hash, m, op.key, if op.Put? then Some(op.value) else None, After(ops[..i]));
      versions := versions + [m];
      i := i + 1;
    }
  }

  lemma EmptyRepresented<K(!new), V>(hash: K -> bv32, m: HashMap<K, V>)
    requires m == HashMap(0, None)
    ensures Represents(hash, m, map[])
  {
  }
}
