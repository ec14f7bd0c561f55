/** The tree that gives each list of arguments its id in a memoizer. */
module ArgumentTree {
  import opened Options

  /** A place in the tree: how many arguments the lists below it have, and the first of them. */
  datatype Spot<Arg> = Spot(arity: nat, path: seq<Arg>)

  /** What a node holds for a key: the node for the next argument or, for the last argument, the id. */
  datatype Kid<Arg(!new,==)> = Sub(node: Node<Arg>) | Id(id: nat)

  /** The contents of a node. */
  datatype Cell<Arg(!new,==)> = Cell(keys: seq<Arg>, kids: seq<Kid<Arg>>)

  class Node<Arg(!new,==)> {
    ghost const spot: Spot<Arg>
    var keys: seq<Arg>
    var kids: seq<Kid<Arg>>

    constructor (ghost spot: Spot<Arg>)
      ensures this.spot == spot && keys == [] && kids == []
    {
      this.spot := spot;
      keys, kids := [], [];
    }
  }

  type Nodes<!Arg(!new,==)> = map<Spot<Arg>, Node<Arg>>

  type Contents<Arg(!new,==)> = map<Spot<Arg>, Cell<Arg>>

  /** The id of each list of arguments. */
  type Ids<!Arg(==)> = map<seq<Arg>, nat>

  function Up<Arg>(p: Spot<Arg>): Spot<Arg>
    requires p.path != []
  {
    Spot(p.arity, p.path[..|p.path| - 1])
  }

  function Down<Arg>(p: Spot<Arg>, k: Arg): Spot<Arg> {
    Spot(p.arity, p.path + [k])
  }

  function Full<Arg>(p: Spot<Arg>, k: Arg): seq<Arg> {
    p.path + [k]
  }

  /** The place whose node holds the id of a. */
  function Home<Arg>(a: seq<Arg>): Spot<Arg>
    requires a != []
  {
    Spot(|a|, a[..|a| - 1])
  }

  lemma DownUp<Arg>(p: Spot<Arg>, k: Arg)
    ensures var q := Down(p, k); q.path != [] && Up(q) == p && |q.path| == |p.path| + 1 && q.arity == p.arity
  {
  }

  lemma HomeIs<Arg>(p: Spot<Arg>, k: Arg)
    requires |p.path| + 1 == p.arity
    ensures Full(p, k) != [] && Home(Full(p, k)) == p
  {
  }

  /** Different places have different places below them. */
  lemma Beside<Arg(!new)>(p: Spot<Arg>, k: Arg, r: Spot<Arg>)
    ensures forall l: Arg :: Down(r, l) == Down(p, k) <==> r == p && l == k
    ensures forall l: Arg :: Full(r, l) == Full(p, k) <==> r.path == p.path && l == k
  {
    forall l: Arg ensures Full(r, l) == Full(p, k) <==> r.path == p.path && l == k {
      if Full(r, l) == Full(p, k) {
        assert Full(r, l)[|r.path|] == l && Full(p, k)[|p.path|] == k;
        assert Full(r, l)[..|r.path|] == r.path && Full(p, k)[..|p.path|] == p.path;
      }
    }
    forall l: Arg ensures Down(r, l) == Down(p, k) <==> r == p && l == k {
      assert Down(r, l).path == Full(r, l) && Down(p, k).path == Full(p, k);
    }
  }

  ghost predicate Distinct<Arg>(keys: seq<Arg>) {
    forall i, j | 0 <= i < j < |keys| :: keys[i] != keys[j]
  }

  /** A node has a key for each node or list of arguments right below it, and for nothing else. */
  ghost predicate Linked<Arg(!new)>(p: Spot<Arg>, c: Cell<Arg>, nodes: Nodes<Arg>, live: Ids<Arg>) {
    && |c.keys| == |c.kids| && Distinct(c.keys)
    && if |p.path| + 1 < p.arity then
         && (forall k: Arg :: k in c.keys <==> Down(p, k) in nodes)
         && forall i | 0 <= i < |c.keys| :: c.kids[i] == Sub(nodes[Down(p, c.keys[i])])
       else
         && (forall k: Arg :: k in c.keys <==> Full(p, k) in live)
         && forall i | 0 <= i < |c.keys| :: c.kids[i] == Id(live[Full(p, c.keys[i])])
  }

  ghost predicate AllLinked<Arg(!new)>(nodes: Nodes<Arg>, cells: Contents<Arg>, live: Ids<Arg>) {
    forall p | p in cells :: Linked(p, cells[p], nodes, live)
  }

  /** Every node but a root, and every live list, has the node above it; no branch is empty, but perhaps at `hollow`. */
  ghost predicate Shaped<Arg(!new)>(nodes: Nodes<Arg>, cells: Contents<Arg>, live: Ids<Arg>,
                                    hollow: Option<Spot<Arg>>) {
    && nodes.Keys == cells.Keys
    && (forall p | p in cells :: p in nodes && |p.path| < p.arity && nodes[p].spot == p)
    && (forall p | p in cells && p.path != [] :: Up(p) in cells && (Some(p) == hollow || cells[p].keys != []))
    && forall a | a in live && a != [] :: Home(a) in cells
  }

  /** The tree holds exactly the live lists. */
  ghost predicate Good<Arg(!new)>(nodes: Nodes<Arg>, cells: Contents<Arg>, live: Ids<Arg>, hollow: Option<Spot<Arg>>) {
    AllLinked(nodes, cells, live) && Shaped(nodes, cells, live, hollow)
  }

  lemma LinkedFrame<Arg(!new)>(r: Spot<Arg>, c: Cell<Arg>, nodes: Nodes<Arg>, live: Ids<Arg>, nodes': Nodes<Arg>,
                               live': Ids<Arg>)
    requires Linked(r, c, nodes, live)
    requires forall k: Arg | |r.path| + 1 < r.arity ::
      && (Down(r, k) in nodes <==> Down(r, k) in nodes')
      && (Down(r, k) in nodes ==> nodes[Down(r, k)] == nodes'[Down(r, k)])
    requires forall k: Arg | |r.path| + 1 >= r.arity ::
      (Full(r, k) in live <==> Full(r, k) in live') && (Full(r, k) in live ==> live[Full(r, k)] == live'[Full(r, k)])
    ensures Linked(r, c, nodes', live')
  {
  }

  /** Nothing is below a place without a node. */
  lemma FreshLinked<Arg(!new)>(nodes: Nodes<Arg>, cells: Contents<Arg>, live: Ids<Arg>, hollow: Option<Spot<Arg>>,
                               q: Spot<Arg>)
    requires Shaped(nodes, cells, live, hollow) && q !in cells && |q.path| < q.arity
    ensures Linked(q, Cell([], []), nodes, live)
  {
  }

  lemma RootAdded<Arg(!new)>(nodes: Nodes<Arg>, cells: Contents<Arg>, live: Ids<Arg>, p: Spot<Arg>, n: Node<Arg>)
    requires Good(nodes, cells, live, None) && p.arity > 0 && p.path == [] && p !in nodes && n.spot == p
    ensures Good(nodes[p := n], cells[p := Cell([], [])], live, None)
  {
    FreshLinked(nodes, cells, live, None, p);
    hide Home, Linked;
    forall r | r in cells ensures Linked(r, cells[r], nodes[p := n], live) {
      forall k: Arg ensures Down(r, k) != p { DownUp(r, k); }
      hide Down;
      LinkedFrame(r, cells[r], nodes, live, nodes[p := n], live);
    }
    hide Down;
    LinkedFrame(p, Cell([], []), nodes, live, nodes[p := n], live) by {
      forall k: Arg ensures Down(p, k) != p { DownUp(p, k); }
    }
  }

  /** A node for the next argument, empty as yet. */
  lemma ChildAdded<Arg(!new)>(nodes: Nodes<Arg>, cells: Contents<Arg>, live: Ids<Arg>, p: Spot<Arg>, k: Arg,
                              n: Node<Arg>)
    requires Good(nodes, cells, live, Some(p)) && p in cells && |p.path| + 1 < p.arity && k !in cells[p].keys
    requires n.spot == Down(p, k)
    ensures Down(p, k) !in cells
    ensures var c := cells[p];
      Good(nodes[Down(p, k) := n], cells[p := Cell(c.keys + [k], c.kids + [Sub(n)])][Down(p, k) := Cell([], [])], live,
        Some(Down(p, k)))
  {
    DownUp(p, k);
    var q, c := Down(p, k), cells[p];
    assert q !in nodes by { assert Linked(p, c, nodes, live); }
    hide Linked;
    FreshLinked(nodes, cells, live, Some(p), q);
    hide Down, Home, Up;
    ChildLinked(nodes, cells, live, p, k, n);
    hide AllLinked;
  }

  lemma ChildLinked<Arg(!new)>(nodes: Nodes<Arg>, cells: Contents<Arg>, live: Ids<Arg>, p: Spot<Arg>, k: Arg,
                               n: Node<Arg>)
    requires AllLinked(nodes, cells, live) && p in cells && |p.path| + 1 < p.arity && k !in cells[p].keys
    requires Down(p, k) !in nodes && Down(p, k) !in cells && Linked(Down(p, k), Cell([], []), nodes, live)
    ensures var c := cells[p];
      AllLinked(nodes[Down(p, k) := n], cells[p := Cell(c.keys + [k], c.kids + [Sub(n)])][Down(p, k) := Cell([], [])],
        live)
  {
    hide Linked, Full;
    var q, c := Down(p, k), cells[p];
    var nodes', cells' := nodes[q := n], cells[p := Cell(c.keys + [k], c.kids + [Sub(n)])][q := Cell([], [])];
    forall r | r in cells' ensures Linked(r, cells'[r], nodes', live) {
      Beside(p, k, r);
      hide Down;
      if r == p {
        PushedNode(p, c, nodes, live, k, n);
      } else {
        LinkedFrame(r, if r == q then Cell([], []) else cells[r], nodes, live, nodes', live);
      }
    }
  }

  lemma PushedNode<Arg(!new)>(p: Spot<Arg>, c: Cell<Arg>, nodes: Nodes<Arg>, live: Ids<Arg>, k: Arg, n: Node<Arg>)
    requires Linked(p, c, nodes, live) && |p.path| + 1 < p.arity && k !in c.keys
    ensures Linked(p, Cell(c.keys + [k], c.kids + [Sub(n)]), nodes[Down(p, k) := n], live)
  {
    Beside(p, k, p);
    hide Down, Full;
  }

  lemma LeafAdded<Arg(!new)>(nodes: Nodes<Arg>, cells: Contents<Arg>, live: Ids<Arg>, p: Spot<Arg>, k: Arg, id: nat)
    requires Good(nodes, cells, live, Some(p)) && p in cells && |p.path| + 1 == p.arity && k !in cells[p].keys
    ensures Full(p, k) !in live
    ensures var c := cells[p];
      Good(nodes, cells[p := Cell(c.keys + [k], c.kids + [Id(id)])], live[Full(p, k) := id], None)
  {
    HomeIs(p, k);
    var c := cells[p];
    assert Full(p, k) !in live by { assert Linked(p, c, nodes, live); }
    hide Linked, Home, Up, Full;
    var cells', live' := cells[p := Cell(c.keys + [k], c.kids + [Id(id)])], live[Full(p, k) := id];
    forall r | r in cells' ensures Linked(r, cells'[r], nodes, live') {
      assert |r.path| < r.arity;
      LeafLinked(r, cells[r], nodes, live, p, k, id);
    }
  }

  lemma LeafLinked<Arg(!new)>(r: Spot<Arg>, c: Cell<Arg>, nodes: Nodes<Arg>, live: Ids<Arg>, p: Spot<Arg>, k: Arg,
                              id: nat)
    requires Linked(r, c, nodes, live) && |r.path| < r.arity && |p.path| + 1 == p.arity && (r == p ==> k !in c.keys)
    ensures Linked(r, if r == p then Cell(c.keys + [k], c.kids + [Id(id)]) else c, nodes, live[Full(p, k) := id])
  {
    hide Linked, Down;
    if r == p {
      PushedLeaf(p, c, nodes, live, k, id);
    } else {
      Beside(p, k, r);
      hide Full;
      LinkedFrame(r, c, nodes, live, nodes, live[Full(p, k) := id]);
    }
  }

  lemma PushedLeaf<Arg(!new)>(p: Spot<Arg>, c: Cell<Arg>, nodes: Nodes<Arg>, live: Ids<Arg>, k: Arg, id: nat)
    requires Linked(p, c, nodes, live) && |p.path| + 1 == p.arity && k !in c.keys
    ensures Linked(p, Cell(c.keys + [k], c.kids + [Id(id)]), nodes, live[Full(p, k) := id])
  {
    Beside(p, k, p);
    hide Down, Full;
  }

  /** A list that has an id gets another. */
  lemma LeafChanged<Arg(!new)>(nodes: Nodes<Arg>, cells: Contents<Arg>, live: Ids<Arg>, p: Spot<Arg>, i: nat, id: nat)
    requires Good(nodes, cells, live, Some(p)) && p in cells && |p.path| + 1 == p.arity && i < |cells[p].keys|
    ensures |cells[p].kids| == |cells[p].keys| && Full(p, cells[p].keys[i]) in live
    ensures var c := cells[p];
      Good(nodes, cells[p := Cell(c.keys, c.kids[i := Id(id)])], live[Full(p, c.keys[i]) := id], None)
  {
    var c := cells[p];
    HomeIs(p, c.keys[i]);
    assert |c.kids| == |c.keys| && Full(p, c.keys[i]) in live by { assert Linked(p, c, nodes, live); }
    hide Linked, Home, Up, Full;
    var cells', live' := cells[p := Cell(c.keys, c.kids[i := Id(id)])], live[Full(p, c.keys[i]) := id];
    forall r | r in cells' ensures Linked(r, cells'[r], nodes, live') {
      assert |r.path| < r.arity;
      if r == p {
        ChangedLinked(p, c, nodes, live, i, id);
      } else {
        Beside(p, c.keys[i], r);
        LinkedFrame(r, cells[r], nodes, live, nodes, live');
      }
    }
  }

  lemma ChangedLinked<Arg(!new)>(p: Spot<Arg>, c: Cell<Arg>, nodes: Nodes<Arg>, live: Ids<Arg>, i: nat, id: nat)
    requires Linked(p, c, nodes, live) && |p.path| + 1 == p.arity && i < |c.keys|
    ensures Linked(p, Cell(c.keys, c.kids[i := Id(id)]), nodes, live[Full(p, c.keys[i]) := id])
  {
    Beside(p, c.keys[i], p);
    hide Down, Full;
  }

  function Spliced<T>(s: seq<T>, i: nat): seq<T>
    requires i < |s|
  {
    s[..i] + s[i + 1..]
  }

  lemma SplicedKeys<Arg>(keys: seq<Arg>, i: nat)
    requires i < |keys| && Distinct(keys)
    ensures Distinct(Spliced(keys, i)) && forall k :: k in Spliced(keys, i) <==> k in keys && k != keys[i]
  {
  }

  lemma SplicedAt<T>(s: seq<T>, i: nat)
    requires i < |s|
    ensures |Spliced(s, i)| == |s| - 1
    ensures forall j | 0 <= j < |s| - 1 :: Spliced(s, i)[j] == s[if j < i then j else j + 1]
  {
  }

  /** A node that loses key i loses the node or the list of arguments right below it. */
  lemma SplicedLinked<Arg(!new)>(p: Spot<Arg>, c: Cell<Arg>, nodes: Nodes<Arg>, live: Ids<Arg>, i: nat)
    requires Linked(p, c, nodes, live) && i < |c.keys|
    ensures var r := Cell(Spliced(c.keys, i), Spliced(c.kids, i));
      if |p.path| + 1 < p.arity then Linked(p, r, nodes - {Down(p, c.keys[i])}, live)
      else Linked(p, r, nodes, live - {Full(p, c.keys[i])})
  {
    Beside(p, c.keys[i], p);
    SplicedKeys(c.keys, i);
    SplicedAt(c.keys, i);
    SplicedAt(c.kids, i);
    hide Down, Full, Spliced;
  }

  lemma LeafRemoved<Arg(!new)>(nodes: Nodes<Arg>, cells: Contents<Arg>, live: Ids<Arg>, p: Spot<Arg>, i: nat)
    requires Good(nodes, cells, live, None) && p in cells && |p.path| + 1 == p.arity && i < |cells[p].keys|
    ensures |cells[p].kids| == |cells[p].keys| && Full(p, cells[p].keys[i]) in live
    ensures var c := cells[p];
      Good(nodes, cells[p := Cell(Spliced(c.keys, i), Spliced(c.kids, i))], live - {Full(p, c.keys[i])}, Some(p))
  {
    var c := cells[p];
    HomeIs(p, c.keys[i]);
    assert |c.kids| == |c.keys| && Full(p, c.keys[i]) in live by { assert Linked(p, c, nodes, live); }
    hide Linked, Home, Up, Spliced, Full, Down;
    var cells', live' := cells[p := Cell(Spliced(c.keys, i), Spliced(c.kids, i))], live - {Full(p, c.keys[i])};
    forall r | r in cells' ensures Linked(r, cells'[r], nodes, live') {
      assert |r.path| < r.arity;
      if r == p {
        SplicedLinked(p, c, nodes, live, i);
      } else {
        Beside(p, c.keys[i], r);
        LinkedFrame(r, cells[r], nodes, live, nodes, live');
      }
    }
  }

  /** An empty branch is cut off its parent. */
  lemma Pruned<Arg(!new)>(nodes: Nodes<Arg>, cells: Contents<Arg>, live: Ids<Arg>, p: Spot<Arg>, q: Spot<Arg>, i: nat)
    requires Good(nodes, cells, live, Some(q)) && q in cells && cells[q].keys == [] && p in cells
      && |p.path| + 1 < p.arity
    requires i < |cells[p].keys| && Down(p, cells[p].keys[i]) == q
    ensures |cells[p].kids| == |cells[p].keys|
    ensures var c := cells[p];
      Good(nodes - {q}, (cells - {q})[p := Cell(Spliced(c.keys, i), Spliced(c.kids, i))], live, Some(p))
  {
    DownUp(p, cells[p].keys[i]);
    assert |cells[p].kids| == |cells[p].keys| by { assert Linked(p, cells[p], nodes, live); }
    NothingBelow(nodes, cells, live, q);
    NoListBelow(nodes, cells, live, q);
    PrunedLinked(nodes, cells, live, p, q, i);
    hide AllLinked, Linked, Up, Home, Spliced, Down;
  }

  lemma PrunedLinked<Arg(!new)>(nodes: Nodes<Arg>, cells: Contents<Arg>, live: Ids<Arg>, p: Spot<Arg>, q: Spot<Arg>,
                                i: nat)
    requires AllLinked(nodes, cells, live) && p in cells && |p.path| + 1 < p.arity
      && i < |cells[p].keys| == |cells[p].kids|
    requires Down(p, cells[p].keys[i]) == q != p
    ensures var c := cells[p];
      AllLinked(nodes - {q}, (cells - {q})[p := Cell(Spliced(c.keys, i), Spliced(c.kids, i))], live)
  {
    hide Linked, Full, Spliced;
    var c := cells[p];
    var nodes', cells' := nodes - {q}, (cells - {q})[p := Cell(Spliced(c.keys, i), Spliced(c.kids, i))];
    forall r | r in cells' ensures Linked(r, cells'[r], nodes', live) {
      Beside(p, c.keys[i], r);
      hide Down;
      if r == p {
        SplicedLinked(p, c, nodes, live, i);
      } else {
        LinkedFrame(r, cells[r], nodes, live, nodes', live);
      }
    }
  }

  lemma UpShorter<Arg>(r: Spot<Arg>)
    requires r.path != []
    ensures |Up(r).path| + 1 == |r.path| && Up(r).arity == r.arity && Down(Up(r), r.path[|r.path| - 1]) == r
  {
  }

  lemma HomeHolds<Arg>(a: seq<Arg>)
    requires a != []
    ensures |Home(a).path| + 1 == |a| == Home(a).arity && Full(Home(a), a[|a| - 1]) == a
  {
  }

  /** A node has its key in the node above, */
  lemma KeyAbove<Arg(!new)>(nodes: Nodes<Arg>, cells: Contents<Arg>, live: Ids<Arg>, hollow: Option<Spot<Arg>>,
                            r: Spot<Arg>)
    requires Good(nodes, cells, live, hollow) && r in cells && r.path != []
    ensures Up(r) in cells && r.path[|r.path| - 1] in cells[Up(r)].keys
  {
    UpShorter(r);
    hide Down, Up;
    var p := Up(r);
    assert p in cells && |r.path| < r.arity;
    hide Shaped;
    assert Linked(p, cells[p], nodes, live);
  }

  /** and a list of arguments in its home. */
  lemma KeyHome<Arg(!new)>(nodes: Nodes<Arg>, cells: Contents<Arg>, live: Ids<Arg>, hollow: Option<Spot<Arg>>,
                           a: seq<Arg>)
    requires Good(nodes, cells, live, hollow) && a in live && a != []
    ensures Home(a) in cells && a[|a| - 1] in cells[Home(a)].keys
  {
    HomeHolds(a);
    hide Full, Home;
    var p := Home(a);
    assert p in cells;
    hide Shaped;
    assert Linked(p, cells[p], nodes, live);
  }

  /** No node is below an empty one, */
  lemma NothingBelow<Arg(!new)>(nodes: Nodes<Arg>, cells: Contents<Arg>, live: Ids<Arg>, q: Spot<Arg>)
    requires Good(nodes, cells, live, Some(q)) && q in cells && cells[q].keys == []
    ensures forall r | r in cells && r.path != [] :: Up(r) != q
  {
    hide Good, Up;
    forall r | r in cells && r.path != [] ensures Up(r) != q { KeyAbove(nodes, cells, live, Some(q), r); }
  }

  /** and no list of arguments either. */
  lemma NoListBelow<Arg(!new)>(nodes: Nodes<Arg>, cells: Contents<Arg>, live: Ids<Arg>, q: Spot<Arg>)
    requires Good(nodes, cells, live, Some(q)) && q in cells && cells[q].keys == []
    ensures forall a | a in live && a != [] :: Home(a) != q
  {
    hide Good, Home;
    forall a | a in live && a != [] ensures Home(a) != q { KeyHome(nodes, cells, live, Some(q), a); }
  }

  /** A branch that holds something, or the root, is not hollow. */
  lemma NotHollow<Arg(!new)>(nodes: Nodes<Arg>, cells: Contents<Arg>, live: Ids<Arg>, p: Spot<Arg>)
    requires Good(nodes, cells, live, Some(p)) && p in cells && (p.path == [] || cells[p].keys != [])
    ensures Good(nodes, cells, live, None)
  {
  }

  /** Every prefix of a live list has a node, with a key for the next argument. */
  lemma {:induction false} PathPresent<Arg(!new)>(nodes: Nodes<Arg>, cells: Contents<Arg>, live: Ids<Arg>,
                                                  hollow: Option<Spot<Arg>>, t: seq<Arg>, i: nat)
    requires Good(nodes, cells, live, hollow) && t in live && i < |t|
    ensures var p := Spot(|t|, t[..i]); p in cells && t[i] in cells[p].keys
    decreases |t| - i
  {
    hide Good;
    if i == |t| - 1 {
      KeyHome(nodes, cells, live, hollow, t);
    } else {
      PathPresent(nodes, cells, live, hollow, t, i + 1);
      KeyAbove(nodes, cells, live, hollow, Spot(|t|, t[..i + 1]));
      assert t[..i + 1][..i] == t[..i];
    }
  }

  /** A node that is there leads on to its child, or to the id of the whole list. */
  lemma ChildIs<Arg(!new)>(nodes: Nodes<Arg>, cells: Contents<Arg>, live: Ids<Arg>, hollow: Option<Spot<Arg>>,
                           t: seq<Arg>, i: nat, j: nat)
    requires Good(nodes, cells, live, hollow) && i < |t|
    requires var p := Spot(|t|, t[..i]); p in cells && j < |cells[p].keys| && cells[p].keys[j] == t[i]
    ensures var c := cells[Spot(|t|, t[..i])];
      && |c.kids| == |c.keys|
      && (i + 1 < |t| ==> var q := Spot(|t|, t[..i + 1]); q in cells && q in nodes && c.kids[j] == Sub(nodes[q]))
      && (i + 1 == |t| ==> t in live && c.kids[j] == Id(live[t]))
  {
    hide Good, Down, Full;
    Onward(t, i);
    KidIs(nodes, cells, live, hollow, Spot(|t|, t[..i]), j);
  }

  lemma Onward<Arg>(t: seq<Arg>, i: nat)
    requires i < |t|
    ensures var p := Spot(|t|, t[..i]);
      |p.path| == i && Down(p, t[i]) == Spot(|t|, t[..i + 1]) && Full(p, t[i]) == t[..i + 1]
        && (i + 1 == |t| ==> Full(p, t[i]) == t)
  {
  }

  lemma OnePlace<Arg(!new)>(nodes: Nodes<Arg>, cells: Contents<Arg>, live: Ids<Arg>, hollow: Option<Spot<Arg>>)
    requires Good(nodes, cells, live, hollow)
    ensures nodes.Keys == cells.Keys && forall q | q in nodes :: nodes[q].spot == q && |q.path| < q.arity
  {
  }

  lemma ChildFree<Arg(!new)>(nodes: Nodes<Arg>, cells: Contents<Arg>, live: Ids<Arg>, hollow: Option<Spot<Arg>>,
                             p: Spot<Arg>, k: Arg)
    requires Good(nodes, cells, live, hollow) && p in cells && |p.path| + 1 < p.arity && k !in cells[p].keys
    ensures Down(p, k) !in nodes
  {
  }

  lemma KidIs<Arg(!new)>(nodes: Nodes<Arg>, cells: Contents<Arg>, live: Ids<Arg>, hollow: Option<Spot<Arg>>,
                         p: Spot<Arg>, j: nat)
    requires Good(nodes, cells, live, hollow) && p in cells && j < |cells[p].keys|
    ensures |cells[p].kids| == |cells[p].keys| && |p.path| < p.arity
    ensures |p.path| + 1 < p.arity ==>
      var q := Down(p, cells[p].keys[j]); q in nodes && q in cells && cells[p].kids[j] == Sub(nodes[q])
    ensures |p.path| + 1 == p.arity ==>
      var a := Full(p, cells[p].keys[j]); a in live && cells[p].kids[j] == Id(live[a])
  {
  }

  lemma MaybeHollow<Arg(!new)>(nodes: Nodes<Arg>, cells: Contents<Arg>, live: Ids<Arg>, p: Spot<Arg>)
    requires Good(nodes, cells, live, None)
    ensures Good(nodes, cells, live, Some(p))
  {
  }

  lemma ZeroChanged<Arg(!new)>(nodes: Nodes<Arg>, cells: Contents<Arg>, live: Ids<Arg>, live': Ids<Arg>)
    requires Good(nodes, cells, live, None)
    requires forall a | a != [] :: (a in live <==> a in live') && (a in live ==> live[a] == live'[a])
    ensures Good(nodes, cells, live', None)
  {
    hide Up, Home, Linked;
    forall r | r in cells ensures Linked(r, cells[r], nodes, live') {
      LinkedFrame(r, cells[r], nodes, live, nodes, live');
    }
  }

  /** Every list with an id is remembered under it. */
  ghost predicate Known<Arg>(live: Ids<Arg>, args: map<nat, seq<Arg>>, lastId: nat) {
    && (forall a | a in live :: live[a] in args && args[live[a]] == a)
    && (forall id | id in args :: 1 <= id <= lastId)
  }

  /** A root that was made stays: there is one for every list that is remembered. */
  ghost predicate Reached<Arg>(args: map<nat, seq<Arg>>, roots: set<nat>) {
    forall id | id in args && args[id] != [] :: |args[id]| in roots
  }

  /** No id is remembered but the last one that its list was given. */
  ghost predicate Inverse<Arg>(live: Ids<Arg>, args: map<nat, seq<Arg>>, lastId: nat) {
    && (forall a | a in live :: live[a] in args && args[live[a]] == a)
    && (forall id | id in args :: 1 <= id <= lastId && args[id] in live && live[args[id]] == id)
  }

  /** `delete` forgets the id that it finds at the leaf of a list, and for the empty list the one that it is given. */
  ghost function Forgotten<Arg>(live: Ids<Arg>, args: map<nat, seq<Arg>>, id: nat): set<nat>
    requires id in args
  {
    if args[id] == [] then {id} else if args[id] in live then {live[args[id]]} else {}
  }

  lemma KnownRemoved<Arg>(live: Ids<Arg>, args: map<nat, seq<Arg>>, lastId: nat, id: nat)
    requires Known(live, args, lastId) && id in args
    ensures Known(live - {args[id]}, args - Forgotten(live, args, id), lastId)
    ensures args[id] !in live ==> live - {args[id]} == live
    ensures Inverse(live, args, lastId) ==>
      Forgotten(live, args, id) == {id} && Inverse(live - {args[id]}, args - {id}, lastId)
  {
  }

  /** The nodes on the way to t and the index of the next argument in each. */
  ghost predicate Chain<Arg(!new)>(c: seq<(Node<Arg>, nat)>, t: seq<Arg>, nodes: Nodes<Arg>, cells: Contents<Arg>) {
    && |c| <= |t| && nodes.Keys == cells.Keys
    && forall j | 0 <= j < |c| ::
         var p := Spot(|t|, t[..j]);
         p in nodes && c[j].0 == nodes[p] && c[j].1 < |cells[p].keys| && cells[p].keys[c[j].1] == t[j]
  }

  lemma ChainKept<Arg(!new)>(c: seq<(Node<Arg>, nat)>, t: seq<Arg>, nodes: Nodes<Arg>, cells: Contents<Arg>,
                             cells': Contents<Arg>)
    requires Chain(c, t, nodes, cells) && cells'.Keys == cells.Keys && |c| == |t| - 1
    requires forall p | p in cells && p != Home(t) :: cells'[p] == cells[p]
    ensures Chain(c, t, nodes, cells')
  {
  }

  lemma ChainShorter<Arg(!new)>(c: seq<(Node<Arg>, nat)>, t: seq<Arg>, nodes: Nodes<Arg>, cells: Contents<Arg>,
                                nodes': Nodes<Arg>, cells': Contents<Arg>)
    requires c != [] && |c| < |t| && Chain(c, t, nodes, cells) && nodes' == nodes - {Spot(|t|, t[..|c|])}
      && cells'.Keys == nodes'.Keys
    requires forall r | r in nodes' && r != Spot(|t|, t[..|c| - 1]) :: r in cells && cells'[r] == cells[r]
    ensures Chain(c[..|c| - 1], t, nodes', cells')
  {
  }

  lemma KnownAdded<Arg>(live: Ids<Arg>, args: map<nat, seq<Arg>>, id: nat, t: seq<Arg>)
    requires id > 0 && Known(live, args, id - 1)
    ensures id !in args && Known(live[t := id], args[id := t], id)
    ensures t !in live && Inverse(live, args, id - 1) ==> Inverse(live[t := id], args[id := t], id)
  {
  }

  /** `indexOf`; -1 stands for no index. */
  method IndexOf<Arg(==)>(keys: seq<Arg>, k: Arg) returns (i: int)
    ensures if i == -1 then k !in keys else 0 <= i < |keys| && keys[i] == k
  {
    i := 0;
    while i < |keys|
      invariant 0 <= i <= |keys| && k !in keys[..i]
    {
      if keys[i] == k { return; }
      i := i + 1;
    }
    i := -1;
  }

  class Tree<Arg(!new,==)> {
    var lastId: nat
    /** The first list is for no arguments; the others start at the root for their number of arguments. */
    var zero: Option<nat>
    var roots: map<nat, Node<Arg>>
    var args: map<nat, seq<Arg>>
    ghost var nodes: Nodes<Arg>
    /** Which lists have an id, and which. */
    ghost var live: Ids<Arg>

    ghost function Cells(): Contents<Arg>
      reads `nodes, nodes.Values
    {
      map p | p in nodes :: Cell(nodes[p].keys, nodes[p].kids)
    }

    ghost predicate Rooted()
      reads `roots, `nodes, `zero, `live
    {
      && (forall a | a in roots :: a > 0 && Spot(a, []) in nodes && nodes[Spot(a, [])] == roots[a])
      && (forall a: nat :: Spot(a, []) in nodes ==> a in roots)
      && zero == if [] in live then Some(live[[]]) else None
    }

    ghost predicate Valid()
      reads this, nodes.Values
    {
      Good(nodes, Cells(), live, None) && Rooted() && Known(live, args, lastId) && Reached(args, roots.Keys)
    }

    ghost predicate OneEach()
      reads this
    {
      Inverse(live, args, lastId)
    }

    constructor ()
      ensures Valid() && OneEach() && live == map[] && args == map[] && nodes == map[] && lastId == 0
    {
      lastId, zero, roots, args := 0, None, map[], map[];
      nodes, live := map[], map[];
    }

    lemma LiveKnown(t: seq<Arg>)
      requires Valid()
      ensures t in live ==> live[t] in args && args[live[t]] == t
    {
    }

    lemma ArgsKnown(id: nat)
      requires OneEach() && id in args
      ensures args[id] in live && live[args[id]] == id
    {
    }

    /** `get` */
    method Get(t: seq<Arg>) returns (r: Option<nat>)
      requires Valid()
      ensures r == if t in live then Some(live[t]) else None
    {
      hide Good, Known;
      var u := |t|;
      if u == 0 { return zero; }
      if u !in roots {
        if t in live { PathPresent(nodes, Cells(), live, None, t, 0); }
        return None;
      }
      var o := roots[u];
      var i := 0;
      while i < u - 1
        invariant i < u && Spot(u, t[..i]) in nodes && o == nodes[Spot(u, t[..i])]
      {
        if t in live { PathPresent(nodes, Cells(), live, None, t, i); }
        var n := IndexOf(o.keys, t[i]);
        if n == -1 { return None; }
        ChildIs(nodes, Cells(), live, None, t, i, n);
        o := o.kids[n].node;
        i := i + 1;
      }
      if t in live { PathPresent(nodes, Cells(), live, None, t, i); }
      var n := IndexOf(o.keys, t[i]);
      if n == -1 { return None; }
      ChildIs(nodes, Cells(), live, None, t, i, n);
      return Some(o.kids[n].id);
    }

    /** Node n, at place p, gets one more key. */
    method PushAt(n: Node<Arg>, ghost p: Spot<Arg>, k: Arg, kid: Kid<Arg>)
      requires p in nodes && nodes[p] == n && forall q | q in nodes :: nodes[q].spot == q
      modifies n
      ensures Cells() == old(Cells())[p := Cell(old(n.keys) + [k], old(n.kids) + [kid])]
    {
      n.keys := n.keys + [k];
      n.kids := n.kids + [kid];
    }

    /** Node n, at place p, loses key i. */
    method SpliceAt(n: Node<Arg>, ghost p: Spot<Arg>, i: nat)
      requires p in nodes && nodes[p] == n && forall q | q in nodes :: nodes[q].spot == q
      requires i < |n.keys| == |n.kids|
      modifies n
      ensures Cells() == old(Cells())[p := Cell(Spliced(old(n.keys), i), Spliced(old(n.kids), i))]
    {
      n.keys := Spliced(n.keys, i);
      n.kids := Spliced(n.kids, i);
    }

    /** Key i of node n, at place p, leads elsewhere. */
    method ChangeAt(n: Node<Arg>, ghost p: Spot<Arg>, i: nat, kid: Kid<Arg>)
      requires p in nodes && nodes[p] == n && forall q | q in nodes :: nodes[q].spot == q
      requires i < |n.keys| == |n.kids|
      modifies n
      ensures Cells() == old(Cells())[p := Cell(old(n.keys), old(n.kids)[i := kid])]
    {
      n.kids := n.kids[i := kid];
    }

    /** A node for place p, which has none. */
    method NewNode(ghost p: Spot<Arg>) returns (n: Node<Arg>)
      requires p !in nodes
      modifies `nodes
      ensures fresh(n) && n.spot == p && n.keys == [] && n.kids == [] && nodes == old(nodes)[p := n]
      ensures Cells() == old(Cells())[p := Cell([], [])]
    {
      n := new Node<Arg>(p);
      nodes := nodes[p := n];
    }

    method NewChild(ghost p: Spot<Arg>, ghost k: Arg) returns (n: Node<Arg>)
      requires Down(p, k) !in nodes && Rooted()
      modifies `nodes
      ensures fresh(n) && n.spot == Down(p, k) && n.keys == [] && n.kids == [] && nodes == old(nodes)[Down(p, k) := n]
      ensures Cells() == old(Cells())[Down(p, k) := Cell([], [])] && Rooted()
    {
      hide Cells;
      DownUp(p, k);
      n := NewNode(Down(p, k));
    }

    /** The node for no arguments so far. */
    method Root(a: nat) returns (n: Node<Arg>)
      requires Good(nodes, Cells(), live, None) && Rooted() && a > 0
      modifies `roots, `nodes
      ensures Good(nodes, Cells(), live, None) && Rooted() && Spot(a, []) in nodes && n == nodes[Spot(a, [])]
      ensures fresh(nodes.Values - old(nodes.Values)) && roots.Keys == old(roots.Keys) + {a}
    {
      hide Good;
      if a !in roots {
        ghost var p: Spot<Arg> := Spot(a, []);
        assert p !in nodes;
        ghost var before, cells := nodes, Cells();
        n := NewNode(p);
        RootAdded(before, cells, live, p, n);
        roots := roots[a := n];
      }
      n := roots[a];
    }

    /** The node for one argument more. */
    method Step(s: Node<Arg>, ghost p: Spot<Arg>, k: Arg) returns (n: Node<Arg>)
      requires p in nodes && s == nodes[p] && Good(nodes, Cells(), live, Some(p)) && Rooted() && |p.path| + 1 < p.arity
      modifies `nodes, s
      ensures Down(p, k) in nodes && n == nodes[Down(p, k)] && Good(nodes, Cells(), live, Some(Down(p, k))) && Rooted()
      ensures fresh(nodes.Values - old(nodes.Values))
    {
      hide Good, Cells, Down, Rooted;
      CellsAre();
      OnePlace(nodes, Cells(), live, Some(p));
      var o := IndexOf(s.keys, k);
      if o == -1 {
        ghost var before, cells := nodes, Cells();
        DownUp(p, k);
        ChildFree(nodes, Cells(), live, Some(p), p, k);
        n := NewChild(p, k);
        PushAt(s, p, k, Sub(n));
        ChildAdded(before, cells, live, p, k, n);
        assert Cells() == cells[p := Cell(cells[p].keys + [k], cells[p].kids + [Sub(n)])][Down(p, k) := Cell([], [])];
      } else {
        KidIs(nodes, Cells(), live, Some(p), p, o);
        n := s.kids[o].node;
        NotHollow(nodes, Cells(), live, p);
        MaybeHollow(nodes, Cells(), live, Down(p, k));
      }
    }

    /** The node for all arguments but the last. */
    method Walk(t: seq<Arg>) returns (s: Node<Arg>)
      requires Good(nodes, Cells(), live, None) && Rooted() && t != []
      modifies `roots, `nodes, nodes.Values
      ensures Home(t) in nodes && s == nodes[Home(t)] && Good(nodes, Cells(), live, Some(Home(t))) && Rooted()
      ensures fresh(nodes.Values - old(nodes.Values)) && roots.Keys == old(roots.Keys) + {|t|}
    {
      hide Good, Rooted;
      s := Root(|t|);
      ghost var made := roots;
      var u := 0;
      MaybeHollow(nodes, Cells(), live, Spot(|t|, []));
      while u < |t| - 1
        invariant u < |t| && Spot(|t|, t[..u]) in nodes && s == nodes[Spot(|t|, t[..u])]
        invariant Good(nodes, Cells(), live, Some(Spot(|t|, t[..u]))) && Rooted()
        invariant fresh(nodes.Values - old(nodes.Values)) && roots == made
      {
        assert Down(Spot(|t|, t[..u]), t[u]).path == t[..u + 1];
        s := Step(s, Spot(|t|, t[..u]), t[u]);
        u := u + 1;
      }
    }

    /** The last argument's key, with the id. */
    method AddLeaf(s: Node<Arg>, t: seq<Arg>, id: nat)
      requires t != [] && Home(t) in nodes && s == nodes[Home(t)] && Good(nodes, Cells(), live, Some(Home(t)))
        && Rooted()
      modifies `live, s
      ensures Good(nodes, Cells(), live, None) && Rooted() && live == old(live)[t := id]
    {
      hide Good, Cells, Full, Home;
      CellsAre();
      HomeHolds(t);
      ghost var p, k := Home(t), t[|t| - 1];
      OnePlace(nodes, Cells(), live, Some(p));
      var o := IndexOf(s.keys, t[|t| - 1]);
      if o == -1 {
        LeafAdded(nodes, Cells(), live, p, k, id);
        PushAt(s, p, t[|t| - 1], Id(id));
      } else {
        LeafChanged(nodes, Cells(), live, p, o, id);
        ChangeAt(s, p, o, Id(id));
      }
      live := live[t := id];
    }

    method SetZero(id: nat)
      requires Good(nodes, Cells(), live, None) && Rooted()
      modifies `zero, `live
      ensures Good(nodes, Cells(), live, None) && Rooted() && live == old(live)[[] := id]
    {
      hide Good;
      ZeroChanged(nodes, Cells(), live, live[[] := id]);
      zero := Some(id);
      live := live[[] := id];
    }

    method SetPath(t: seq<Arg>, id: nat)
      requires Good(nodes, Cells(), live, None) && Rooted() && t != []
      modifies `roots, `nodes, `live, nodes.Values
      ensures Good(nodes, Cells(), live, None) && Rooted() && live == old(live)[t := id]
      ensures fresh(nodes.Values - old(nodes.Values)) && roots.Keys == old(roots.Keys) + {|t|}
    {
      hide *;
      var s := Walk(t);
      AddLeaf(s, t, id);
    }

    /** `set` */
    method Set(t: seq<Arg>) returns (id: nat)
      requires Valid()
      modifies this, nodes.Values
      ensures Valid() && live == old(live)[t := id] && id !in old(args) && args == old(args)[id := t] && id > 0
      ensures id == lastId == old(lastId) + 1
      ensures old(OneEach()) && t !in old(live) ==> OneEach()
      ensures fresh(nodes.Values - old(nodes.Values))
    {
      hide Good, Rooted, Known, Inverse, Cells;
      id := lastId + 1;
      lastId := id;
      KnownAdded(live, args, id, t);
      if |t| == 0 {
        SetZero(id);
      } else {
        SetPath(t, id);
      }
      args := args[id := t];
    }

    /** The way down of `delete`, with the nodes passed and the indices taken; it may end early. */
    method Descend(t: seq<Arg>) returns (found: bool, u: Node<Arg>, c: seq<(Node<Arg>, nat)>)
      requires Good(nodes, Cells(), live, None) && Rooted() && t != [] && |t| in roots
      ensures t in live ==> found
      ensures found ==> Home(t) in nodes && u == nodes[Home(t)] && |c| == |t| - 1 && Chain(c, t, nodes, Cells())
    {
      hide Good;
      u := roots[|t|];
      c := [];
      var o := 0;
      while o < |t| - 1
        invariant o == |c| < |t| && Spot(|t|, t[..o]) in nodes && u == nodes[Spot(|t|, t[..o])]
          && Chain(c, t, nodes, Cells())
      {
        if t in live { PathPresent(nodes, Cells(), live, None, t, o); }
        var i := IndexOf(u.keys, t[o]);
        if i == -1 { return false, u, c; }
        ChildIs(nodes, Cells(), live, None, t, o, i);
        c := c + [(u, i)];
        u := u.kids[i].node;
        o := o + 1;
      }
      return true, u, c;
    }

    /** The last argument's key goes, if it is there, and with it the list and the id that it has. */
    method DropLeaf(u: Node<Arg>, t: seq<Arg>) returns (id: Option<nat>)
      requires t != [] && Home(t) in nodes && u == nodes[Home(t)] && Good(nodes, Cells(), live, None) && Rooted()
      modifies `live, u
      ensures id == if t in old(live) then Some(old(live)[t]) else None
      ensures id.None? ==> Good(nodes, Cells(), live, None)
      ensures Good(nodes, Cells(), live, Some(Home(t))) && Rooted() && live == old(live) - {t}
      ensures forall p | p in nodes && p != Home(t) :: Cells()[p] == old(Cells())[p]
    {
      hide Good;
      ghost var p := Home(t);
      OnePlace(nodes, Cells(), live, None);
      if t in live { PathPresent(nodes, Cells(), live, None, t, |t| - 1); }
      var i := IndexOf(u.keys, t[|t| - 1]);
      if i == -1 {
        MaybeHollow(nodes, Cells(), live, p);
        return None;
      }
      ChildIs(nodes, Cells(), live, None, t, |t| - 1, i);
      id := Some(u.kids[i].id);
      assert Full(p, t[|t| - 1]) == t;
      LeafRemoved(nodes, Cells(), live, p, i);
      SpliceAt(u, p, i);
      live := live - {t};
    }

    /** An empty branch goes. */
    method Prune(v: Node<Arg>, i: nat, ghost p: Spot<Arg>, ghost q: Spot<Arg>)
      requires q in nodes && nodes[q].keys == [] && Good(nodes, Cells(), live, Some(q)) && Rooted()
      requires p in nodes && v == nodes[p] && |p.path| + 1 < p.arity && i < |v.keys| && Down(p, v.keys[i]) == q
      modifies `nodes, v
      ensures nodes == old(nodes) - {q} && Good(nodes, Cells(), live, Some(p)) && Rooted()
      ensures forall r | r in nodes && r != p :: Cells()[r] == old(Cells())[r]
    {
      hide Good, Down;
      ghost var before, cells := nodes, Cells();
      OnePlace(nodes, cells, live, Some(q));
      DownUp(p, v.keys[i]);
      Pruned(before, cells, live, p, q, i);
      nodes := nodes - {q};
      assert Cells() == cells - {q};
      SpliceAt(v, p, i);
      assert (cells - {q})[p := Cell(Spliced(cells[p].keys, i), Spliced(cells[p].kids, i))] == Cells();
    }

    /** The loop that prunes emptied branches. */
    method PruneUp(from: Node<Arg>, stack: seq<(Node<Arg>, nat)>, ghost t: seq<Arg>)
      requires |stack| < |t| && Chain(stack, t, nodes, Cells()) && Rooted()
      requires var p := Spot(|t|, t[..|stack|]); p in nodes && from == nodes[p] && Good(nodes, Cells(), live, Some(p))
      modifies `nodes, nodes.Values
      ensures Good(nodes, Cells(), live, None) && Rooted() && nodes.Values <= old(nodes.Values)
    {
      hide Good, Rooted, Cells;
      var u, c := from, stack;
      ghost var p := Spot(|t|, t[..|c|]);
      while |u.keys| == 0 && c != []
        invariant |c| <= |stack| && Chain(c, t, nodes, Cells()) && Rooted() && nodes.Values <= old(nodes.Values)
        invariant p == Spot(|t|, t[..|c|]) && p in nodes && u == nodes[p] && Good(nodes, Cells(), live, Some(p))
        decreases |c|
      {
        var (v, i) := c[|c| - 1];
        ghost var q := p;
        p := Spot(|t|, t[..|c| - 1]);
        CellsAre();
        assert Down(p, v.keys[i]) == q by { assert t[..|c|] == t[..|c| - 1] + [t[|c| - 1]]; }
        ghost var nodes0, cells0 := nodes, Cells();
        Prune(v, i, p, q);
        CellsAre();
        ChainShorter(c, t, nodes0, cells0, nodes, Cells());
        u, c := v, c[..|c| - 1];
      }
      CellsAre();
      NotHollow(nodes, Cells(), live, p);
    }

    lemma CellsAre()
      ensures forall p | p in nodes :: p in Cells() && Cells()[p] == Cell(nodes[p].keys, nodes[p].kids)
      ensures Cells().Keys == nodes.Keys
    {
    }

    method DeletePath(t: seq<Arg>) returns (id: Option<nat>)
      requires Good(nodes, Cells(), live, None) && Rooted() && t != [] && |t| in roots
      modifies `nodes, `live, nodes.Values
      ensures id == if t in old(live) then Some(old(live)[t]) else None
      ensures Good(nodes, Cells(), live, None) && Rooted() && live == old(live) - {t}
        && nodes.Values <= old(nodes.Values)
    {
      hide Good, Rooted, Cells;
      var there, u, c := Descend(t);
      if !there { return None; }
      ghost var cells := Cells();
      CellsAre();
      id := DropLeaf(u, t);
      if id.None? { return; }
      CellsAre();
      ChainKept(c, t, nodes, cells, Cells());
      PruneUp(u, c, t);
    }

    method DeleteZero()
      requires Good(nodes, Cells(), live, None) && Rooted()
      modifies `zero, `live
      ensures Good(nodes, Cells(), live, None) && Rooted() && live == old(live) - {[]}
    {
      hide Good;
      ZeroChanged(nodes, Cells(), live, live - {[]});
      zero := None;
      live := live - {[]};
    }

    /** `delete`: the list given with the id loses its id, and what is forgotten is the id found at its leaf. An id that
        is not remembered is an error. */
    method Delete(id: nat) returns (thrown: bool)
      requires Valid()
      modifies this, nodes.Values
      ensures Valid() && lastId == old(lastId) && nodes.Values <= old(nodes.Values)
      ensures thrown <==> id !in old(args)
      ensures thrown ==> live == old(live) && args == old(args)
      ensures !thrown ==>
        live == old(live) - {old(args[id])} && args == old(args) - Forgotten(old(live), old(args), id)
      ensures old(OneEach()) ==> OneEach() && args == old(args) - {id}
    {
      hide Good, Rooted, Cells, Known, Inverse;
      if id !in args { return true; }
      var s := args[id];
      KnownRemoved(live, args, lastId, id);
      if |s| == 0 {
        DeleteZero();
        args := args - {id};
      } else {
        var at := DeletePath(s);
        if at.Some? { args := args - {at.value}; }
      }
      return false;
    }

    /** `clear` */
    method Clear()
      requires Valid()
      modifies this
      ensures Valid() && OneEach() && live == map[] && args == map[] && nodes == map[] && lastId == old(lastId)
    {
      zero, roots, args := None, map[], map[];
      nodes, live := map[], map[];
    }
  }

  // ---- Runs -------------------------------------------------------------------------------------------------------

  datatype Op<Arg> = SetOp(t: seq<Arg>) | DeleteOp(id: nat) | ClearOp

  /** What a tree remembers: the id each list has, the list remembered for each id, and the last id given. */
  datatype Book<!Arg(==)> = Book(live: Ids<Arg>, args: map<nat, seq<Arg>>, lastId: nat)

  ghost function BookOf<Arg(!new)>(tree: Tree<Arg>): Book<Arg>
    reads tree
  {
    Book(tree.live, tree.args, tree.lastId)
  }

  /** What an operation makes of it. */
  ghost function Next<Arg>(b: Book<Arg>, op: Op<Arg>): Book<Arg> {
    match op
    case SetOp(t) => Book(b.live[t := b.lastId + 1], b.args[b.lastId + 1 := t], b.lastId + 1)
    case DeleteOp(id) =>
      if id in b.args then Book(b.live - {b.args[id]}, b.args - Forgotten(b.live, b.args, id), b.lastId) else b
    case ClearOp => Book(map[], map[], b.lastId)
  }

  ghost function BookAfter<Arg>(ops: seq<Op<Arg>>): Book<Arg> {
    if ops == [] then Book(map[], map[], 0) else Next(BookAfter(ops[..|ops| - 1]), ops[|ops| - 1])
  }

  function Sets<Arg>(ops: seq<Op<Arg>>): nat {
    if ops == [] then 0 else Sets(ops[..|ops| - 1]) + if ops[|ops| - 1].SetOp? then 1 else 0
  }

  /** The reference: ids count up, and each stands for the list it was given for until it is deleted. */
  function Plain<Arg>(ops: seq<Op<Arg>>): map<nat, seq<Arg>> {
    if ops == [] then map[]
    else
      var before := Plain(ops[..|ops| - 1]);
      match ops[|ops| - 1]
      case SetOp(t) => before[Sets(ops) := t]
      case DeleteOp(id) => before - {id}
      case ClearOp => map[]
  }

  /** `delete` is given an id that is not the one its list has now. */
  ghost predicate Outdated<Arg>(b: Book<Arg>, op: Op<Arg>) {
    && op.DeleteOp? && op.id in b.args && b.args[op.id] != []
    && (b.args[op.id] in b.live ==> b.live[b.args[op.id]] != op.id)
  }

  ghost predicate Kept<Arg>(b: Book<Arg>) {
    Known(b.live, b.args, b.lastId)
  }

  /** `delete` forgets the id it is given, exactly if that is the id its list has now, or the list is empty. */
  lemma ForgetsIff<Arg>(b: Book<Arg>, id: nat)
    requires Kept(b) && id in b.args
    ensures Next(b, DeleteOp(id)).args == b.args - {id} <==> !Outdated(b, DeleteOp(id))
    ensures Outdated(b, DeleteOp(id)) ==> id in Next(b, DeleteOp(id)).args
  {
    var s := b.args[id];
    if Outdated(b, DeleteOp(id)) { assert id in Next(b, DeleteOp(id)).args && id !in b.args - {id}; }
  }

  lemma {:induction false} BookKept<Arg>(ops: seq<Op<Arg>>)
    ensures Kept(BookAfter(ops)) && BookAfter(ops).lastId == Sets(ops)
  {
    if ops != [] {
      var n := |ops| - 1;
      BookKept(ops[..n]);
      NextKept(BookAfter(ops[..n]), ops[n]);
    }
  }

  lemma NextKept<Arg>(b: Book<Arg>, op: Op<Arg>)
    requires Kept(b)
    ensures Kept(Next(b, op)) && Next(b, op).lastId == b.lastId + if op.SetOp? then 1 else 0
    ensures Inverse(b.live, b.args, b.lastId) && (op.SetOp? ==> op.t !in b.live) ==>
      var r := Next(b, op); Inverse(r.live, r.args, r.lastId)
  {
    match op
    case SetOp(t) => KnownAdded(b.live, b.args, b.lastId + 1, t);
    case DeleteOp(id) => if id in b.args { KnownRemoved(b.live, b.args, b.lastId, id); }
    case ClearOp =>
  }

  /** No operation before the i-th is a `delete` of an outdated id. */
  ghost predicate NoneOutdated<Arg>(ops: seq<Op<Arg>>, i: nat) {
    forall j | 0 <= j < i && j < |ops| :: !Outdated(BookAfter(ops[..j]), ops[j])
  }

  /** Every run agrees with the reference up to the first `delete` of an outdated id, if there is one, and disagrees
      right after that one. */
  lemma {:induction false} RunAgrees<Arg>(ops: seq<Op<Arg>>, i: nat)
    requires i <= |ops| && NoneOutdated(ops, i)
    ensures BookAfter(ops[..i]).args == Plain(ops[..i])
    ensures i < |ops| ==>
      (BookAfter(ops[..i + 1]).args == Plain(ops[..i + 1]) <==> !Outdated(BookAfter(ops[..i]), ops[i]))
  {
    hide BookAfter, Outdated, Next, Plain, Sets, Kept;
    if i > 0 { RunAgrees(ops, i - 1); } else { NothingSet(ops); }
    if i < |ops| {
      BookKept(ops[..i]);
      StepAgrees(ops, i);
    }
  }

  lemma NothingSet<Arg>(ops: seq<Op<Arg>>)
    ensures BookAfter(ops[..0]).args == Plain(ops[..0])
  {
  }

  lemma StepAgrees<Arg>(ops: seq<Op<Arg>>, i: nat)
    requires i < |ops| && BookAfter(ops[..i]).args == Plain(ops[..i]) && Kept(BookAfter(ops[..i]))
    requires BookAfter(ops[..i]).lastId == Sets(ops[..i])
    ensures BookAfter(ops[..i + 1]).args == Plain(ops[..i + 1]) <==> !Outdated(BookAfter(ops[..i]), ops[i])
  {
    assert ops[..i + 1][..i] == ops[..i];
    var b, op := BookAfter(ops[..i]), ops[i];
    assert BookAfter(ops[..i + 1]) == Next(b, op);
    if op.DeleteOp? && op.id in b.args { ForgetsIff(b, op.id); }
  }

  /** Every `set` before the i-th operation is for a list that has no id, as a memoizer's are. */
  ghost predicate SetsAreNew<Arg>(ops: seq<Op<Arg>>, i: nat) {
    forall j | 0 <= j < i && j < |ops| && ops[j].SetOp? :: ops[j].t !in Plain(ops[..j]).Values
  }

  /** Then nothing is outdated, and at every step the ids are those of the reference, each list with the one id that
      stands for it. */
  lemma {:induction false} NewAgrees<Arg>(ops: seq<Op<Arg>>, i: nat)
    requires i <= |ops| && SetsAreNew(ops, i)
    ensures NoneOutdated(ops, i) && BookAfter(ops[..i]).args == Plain(ops[..i])
    ensures var b := BookAfter(ops[..i]); Inverse(b.live, b.args, b.lastId)
  {
    hide BookAfter, Outdated, Next, Plain, Sets, Kept, Inverse;
    if i == 0 {
      NothingLive(ops);
      RunAgrees(ops, 0);
    } else {
      NewAgrees(ops, i - 1);
      var b, op := BookAfter(ops[..i - 1]), ops[i - 1];
      assert ops[..i][..i - 1] == ops[..i - 1];
      BookKept(ops[..i - 1]);
      NoneIsOutdated(b, op);
      RunAgrees(ops, i - 1);
      LastStep(ops, i);
      if op.SetOp? { ValueOf(b, op.t); }
      NextKept(b, op);
    }
  }

  lemma NothingLive<Arg>(ops: seq<Op<Arg>>)
    ensures var b := BookAfter(ops[..0]); Inverse(b.live, b.args, b.lastId)
  {
  }

  lemma LastStep<Arg>(ops: seq<Op<Arg>>, i: nat)
    requires 0 < i <= |ops|
    ensures BookAfter(ops[..i]) == Next(BookAfter(ops[..i - 1]), ops[i - 1])
  {
    assert ops[..i][..i - 1] == ops[..i - 1];
  }

  lemma NoneIsOutdated<Arg>(b: Book<Arg>, op: Op<Arg>)
    requires Inverse(b.live, b.args, b.lastId)
    ensures !Outdated(b, op)
  {
  }

  lemma ValueOf<Arg>(b: Book<Arg>, t: seq<Arg>)
    requires Inverse(b.live, b.args, b.lastId)
    ensures t in b.args.Values <==> t in b.live
  {
    if t in b.live { assert b.args[b.live[t]] == t; }
  }

  /** Two `set`s for one list and then `delete` of the first id: the second id is forgotten, and the first is not. */
  lemma ForgetsOther<Arg>(t: seq<Arg>)
    requires t != []
    ensures BookAfter([SetOp(t), SetOp(t), DeleteOp(1)]) == Book(map[], map[1 := t], 2)
    ensures Plain([SetOp(t), SetOp(t), DeleteOp(1)]) == map[2 := t]
  {
    var a, b, c := [SetOp(t)], [SetOp(t), SetOp(t)], [SetOp(t), SetOp(t), DeleteOp(1)];
    var none: seq<Op<Arg>> := [];
    assert c[..2] == b && b[..1] == a && a[..0] == none;
    assert BookAfter(none) == Book(map[], map[], 0) && Plain(none) == map[] && Sets(none) == 0;
    assert BookAfter(a) == Book(map[t := 1], map[1 := t], 1) && Sets(a) == 1 && Plain(a) == map[1 := t];
    assert BookAfter(b) == Book(map[t := 2], map[1 := t, 2 := t], 2) && Sets(b) == 2 && Plain(b) == map[1 := t, 2 := t];
  }

  /** One operation on a tree. */
  method Perform<Arg(!new,==)>(tree: Tree<Arg>, op: Op<Arg>)
    requires tree.Valid()
    modifies tree, tree.nodes.Values
    ensures tree.Valid() && BookOf(tree) == Next(old(BookOf(tree)), op)
    ensures fresh(tree.nodes.Values - old(tree.nodes.Values))
  {
    hide Tree.Valid, Tree.OneEach, Forgotten;
    match op {
      case SetOp(t) => var id := tree.Set(t);
      case DeleteOp(id) => var thrown := tree.Delete(id);
      case ClearOp => tree.Clear();
    }
  }

  /** Every run of `set`, `delete` and `clear`. `get` then finds the ids that the book has. */
  method Run<Arg(!new,==)>(ops: seq<Op<Arg>>) returns (tree: Tree<Arg>)
    ensures tree.Valid() && BookOf(tree) == BookAfter(ops)
  {
    hide Tree.Valid, Tree.OneEach, Next;
    tree := new Tree<Arg>();
    var i := 0;
    assert ops[..0] == [];
    while i < |ops|
      invariant i <= |ops| && fresh(tree) && fresh(tree.nodes.Values) && tree.Valid()
      invariant BookOf(tree) == BookAfter(ops[..i])
    {
      assert ops[..i + 1][..i] == ops[..i];
      Perform(tree, ops[i]);
      i := i + 1;
    }
    assert ops[..i] == ops;
  }
}
