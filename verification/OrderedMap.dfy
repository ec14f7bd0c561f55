/** Immutable.OrderedMap: a hash trie from keys to places in a list of entries, where removals leave holes. */
module OrderedMap {
  import opened HashTrie
  import opened Options
  import opened Sequences
  import Digits
  import ListTrie
  import ListViews

  /** `Ce`. An entry that was removed is the value undefined in the list. */
  datatype Ordered<K(==), V(==)> = Ordered(index: HashMap<K, nat>, list: ListTrie.List<(K, V)>)

  /** A map as the operations see it: its index, and what its list shows of its trie. */
  datatype State<K, V> = State(index: HashMap<K, nat>, view: ListViews.View<(K, V)>)
  {
    function Elems(): seq<Option<(K, V)>> {
      view.Elems()
    }
  }

  ghost function StateOf<K, V>(m: Ordered<K, V>): State<K, V>
    reads m.list, m.list.nodes
  {
    State(m.index, m.list.View())
  }

  /** The entries in list order: what `__iterate` passes to its callback. */
  function Entries<T>(list: seq<Option<T>>): seq<T> {
    if list == [] then []
    else
      var last := list[|list| - 1];
      Entries(list[..|list| - 1]) + if last.Some? then [last.value] else []
  }

  ghost predicate Apart<K, V>(list: seq<Option<(K, V)>>) {
    forall i, j | 0 <= i < j < |list| && list[i].Some? && list[j].Some? :: list[i].value.0 != list[j].value.0
  }

  /** Where each key has its entry. */
  ghost function Places<K, V>(list: seq<Option<(K, V)>>): map<K, nat> {
    if list == [] then map[]
    else
      var n := |list| - 1;
      var rest := Places(list[..n]);
      if list[n].Some? then rest[list[n].value.0 := n] else rest
  }

  lemma {:induction false} PlacesAre<K, V>(list: seq<Option<(K, V)>>, k: K)
    requires Apart(list)
    ensures k in Places(list) ==> var i := Places(list)[k]; i < |list| && list[i].Some? && list[i].value.0 == k
    ensures forall i | 0 <= i < |list| && list[i].Some? && list[i].value.0 == k ::
      k in Places(list) && Places(list)[k] == i
  {
    if list != [] {
      var rest := list[..|list| - 1];
      assert forall i | 0 <= i < |rest| :: rest[i] == list[i];
      PlacesAre(rest, k);
    }
  }

  /** Places are determined by what they say. */
  lemma PlacesUnique<K(!new), V>(list: seq<Option<(K, V)>>, m: map<K, nat>)
    requires Apart(list)
    requires forall k: K | k in m :: m[k] < |list| && list[m[k]].Some? && list[m[k]].value.0 == k
    requires forall i | 0 <= i < |list| && list[i].Some? :: list[i].value.0 in m && m[list[i].value.0] == i
    ensures m == Places(list)
  {
    forall k: K ensures k in m <==> k in Places(list) { PlacesAre(list, k); }
    forall k: K | k in m ensures m[k] == Places(list)[k] { PlacesAre(list, k); }
  }

  lemma {:induction false} EntriesJoin<T>(a: seq<Option<T>>, b: seq<Option<T>>)
    ensures Entries(a + b) == Entries(a) + Entries(b)
  {
    if b == [] {
      assert a + b == a;
    } else {
      assert (a + b)[..|a + b| - 1] == a + b[..|b| - 1];
      EntriesJoin(a, b[..|b| - 1]);
    }
  }

  lemma EntriesOne<T>(x: Option<T>)
    ensures Entries([x]) == if x.Some? then [x.value] else []
  {
  }

  lemma EntriesSplit<T>(list: seq<Option<T>>, i: nat)
    requires i < |list|
    ensures Entries(list) ==
      Entries(list[..i]) + (if list[i].Some? then [list[i].value] else []) + Entries(list[i + 1..])
    ensures Entries(list[..i + 1]) == Entries(list[..i]) + if list[i].Some? then [list[i].value] else []
  {
    hide Entries;
    SliceSplit(list, i);
    EntriesJoin(list[..i] + [list[i]], list[i + 1..]);
    EntriesJoin(list[..i], [list[i]]);
    EntriesOne(list[i]);
  }

  lemma {:induction false} EntriesFrom<T>(list: seq<Option<T>>, j: nat) returns (i: nat)
    requires j < |Entries(list)|
    ensures i < |list| && list[i] == Some(Entries(list)[j]) && |Entries(list[..i])| == j
  {
    var n := |list| - 1;
    if j < |Entries(list[..n])| {
      i := EntriesFrom(list[..n], j);
      assert list[..n][..i] == list[..i];
    } else {
      i := n;
    }
  }

  lemma {:induction false} PlacesCount<K, V>(list: seq<Option<(K, V)>>)
    requires Apart(list)
    ensures |Places(list)| == |Entries(list)| <= |list|
  {
    if list != [] {
      var n := |list| - 1;
      var rest := list[..n];
      assert forall i | 0 <= i < n :: rest[i] == list[i];
      PlacesCount(rest);
      if list[n].Some? {
        var k := list[n].value.0;
        PlacesAre(rest, k);
        assert k !in Places(rest);
        assert Places(list).Keys == Places(rest).Keys + {k};
        assert |Places(list)| == |Places(list).Keys| && |Places(rest)| == |Places(rest).Keys|;
      }
    }
  }

  // ---- The reference: an association list in insertion order --------------------------------------------------------

  /** Setting a key that is there keeps its place; a new key goes to the end. */
  function Put<K(==), V>(s: seq<(K, V)>, k: K, v: V): seq<(K, V)> {
    var i := KeyIndex(s, k);
    if i < |s| then s[i := (k, v)] else s + [(k, v)]
  }

  function Drop<K(==), V>(s: seq<(K, V)>, k: K): seq<(K, V)> {
    var i := KeyIndex(s, k);
    if i < |s| then s[..i] + s[i + 1..] else s
  }

  function Change<K(==), V>(s: seq<(K, V)>, k: K, v: Option<V>): seq<(K, V)> {
    if v.Some? then Put(s, k, v.value) else Drop(s, k)
  }

  lemma ChangeKeepsKeys<K, V>(s: seq<(K, V)>, k: K, v: Option<V>)
    requires Distinct(s)
    ensures Distinct(Change(s, k, v))
  {
  }

  // ---- The invariant ------------------------------------------------------------------------------------------------

  function Max(a: int, b: int): int {
    if a < b then b else a
  }

  /** Each key's index is that of its own entry, and holes are few. */
  ghost predicate Agrees<K(!new), V>(hash: K -> bv32, x: State<K, V>) {
    && x.view.Ok() && Apart(x.Elems()) && Represents(hash, x.index, Places(x.Elems()))
    && x.view.size - x.index.size <= Max(31, x.index.size + 1)
  }

  /** What every step keeps, whether or not the map agrees: each key's index is that of an entry with this key. */
  ghost predicate Points<K(!new), V>(hash: K -> bv32, x: State<K, V>, model: map<K, nat>) {
    && x.view.Ok() && Represents(hash, x.index, model)
    && forall k | k in model :: PointsAt(x.Elems(), k, model[k])
  }

  ghost predicate PointsAt<K, V>(list: seq<Option<(K, V)>>, k: K, s: nat) {
    s < |list| && list[s].Some? && list[s].value.0 == k
  }

  ghost predicate Sound<K(!new), V>(hash: K -> bv32, m: Ordered<K, V>, model: map<K, nat>)
    reads m.list, m.list.nodes
  {
    m.list.Valid() && m.list.ownerID == null && Points(hash, StateOf(m), model)
  }

  /** `size` */
  function Size<K, V>(x: State<K, V>): int {
    x.index.size
  }

  /** `Ie.get` */
  function Find<K(==), V>(hash: K -> bv32, x: State<K, V>, k: K): Option<V> {
    var s := Lookup(hash, x.index, k);
    if s.Some? && s.value < x.view.size && x.Elems()[s.value].Some? then Some(x.Elems()[s.value].value.1) else None
  }

  lemma GoodKeysDiffer<K, V>(list: seq<Option<(K, V)>>)
    requires Apart(list)
    ensures Distinct(Entries(list))
  {
    var s := Entries(list);
    forall i, j | 0 <= i < j < |s| ensures s[i].0 != s[j].0 {
      var a := EntriesFrom(list, i);
      var b := EntriesFrom(list, j);
      if b <= a { EntriesPrefix(list, b, a); }
    }
  }

  lemma EntriesPrefix<T>(list: seq<Option<T>>, a: nat, b: nat)
    requires a <= b <= |list|
    ensures |Entries(list[..a])| <= |Entries(list[..b])|
  {
    assert list[..b] == list[..a] + list[a..b];
    EntriesJoin(list[..a], list[a..b]);
  }

  /** A key with an entry at place i is found after as many entries as come before. */
  lemma EntryIndex<K, V>(list: seq<Option<(K, V)>>, i: nat)
    requires Apart(list) && i < |list| && list[i].Some?
    ensures KeyIndex(Entries(list), list[i].value.0) == |Entries(list[..i])| < |Entries(list)|
    ensures Entries(list)[|Entries(list[..i])|] == list[i].value
  {
    EntriesSplit(list, i);
    GoodKeysDiffer(list);
    var s, j := Entries(list), |Entries(list[..i])|;
    assert s[j] == list[i].value;
    var c := KeyIndex(s, list[i].value.0);
  }

  lemma NoEntry<K, V>(list: seq<Option<(K, V)>>, k: K)
    requires Apart(list) && k !in Places(list)
    ensures KeyIndex(Entries(list), k) == |Entries(list)|
  {
  }

  // ---- What a step does to the list ---------------------------------------------------------------------------------

  lemma PlacesKept<K(!new), V>(list: seq<Option<(K, V)>>, i: nat, v: V)
    requires Apart(list) && i < |list| && list[i].Some?
    ensures var r := list[i := Some((list[i].value.0, v))]; Apart(r) && Places(r) == Places(list)
  {
    hide Places;
    var r := list[i := Some((list[i].value.0, v))];
    forall x: K | x in Places(list) ensures Places(list)[x] < |r| && r[Places(list)[x]].Some?
      && r[Places(list)[x]].value.0 == x {
      PlacesAre(list, x);
    }
    forall j | 0 <= j < |r| && r[j].Some? ensures r[j].value.0 in Places(list) && Places(list)[r[j].value.0] == j {
      PlacesAre(list, list[j].value.0);
    }
    PlacesUnique(r, Places(list));
  }

  lemma SetInPlace<K(!new), V>(list: seq<Option<(K, V)>>, i: nat, v: V)
    requires Apart(list) && i < |list| && list[i].Some?
    ensures var k := list[i].value.0; var r := list[i := Some((k, v))];
      Apart(r) && Places(r) == Places(list) && Entries(r) == Put(Entries(list), k, v)
  {
    hide Places, Entries, Apart, KeyIndex;
    var k := list[i].value.0;
    var r := list[i := Some((k, v))];
    PlacesKept(list, i, v);
    EntryIndex(list, i);
    EntriesSplit(list, i);
    EntriesSplit(r, i);
    assert r[..i] == list[..i] && r[i + 1..] == list[i + 1..];
    Replaced(Entries(list[..i]), list[i].value, (k, v), Entries(list[i + 1..]));
  }

  lemma Replaced<E>(a: seq<E>, x: E, y: E, b: seq<E>)
    ensures (a + [x] + b)[|a| := y] == a + [y] + b
  {
  }

  lemma SetAtEnd<K, V>(list: seq<Option<(K, V)>>, k: K, v: V)
    requires Apart(list) && k !in Places(list)
    ensures var r := list + [Some((k, v))];
      Apart(r) && Places(r) == Places(list)[k := |list|] && Entries(r) == Put(Entries(list), k, v)
  {
    var r := list + [Some((k, v))];
    assert r[..|list|] == list;
    PlacesAre(list, k);
    NoEntry(list, k);
  }

  lemma HoledPlaces<K(!new), V>(list: seq<Option<(K, V)>>, i: nat)
    requires Apart(list) && i < |list| && list[i].Some?
    ensures Apart(list[i := None]) && Places(list[i := None]) == Places(list) - {list[i].value.0}
  {
    hide Places;
    var k := list[i].value.0;
    var r, m := list[i := None], Places(list) - {k};
    PlacesAre(list, k);
    forall x: K | x in m ensures m[x] < |r| && r[m[x]].Some? && r[m[x]].value.0 == x { PlacesAre(list, x); }
    forall j | 0 <= j < |r| && r[j].Some? ensures r[j].value.0 in m && m[r[j].value.0] == j {
      PlacesAre(list, r[j].value.0);
    }
    PlacesUnique(r, m);
  }

  lemma Holed<K(!new), V>(list: seq<Option<(K, V)>>, i: nat)
    requires Apart(list) && i < |list| && list[i].Some?
    ensures var k := list[i].value.0; var r := list[i := None];
      Apart(r) && Places(r) == Places(list) - {k} && Entries(r) == Drop(Entries(list), k)
  {
    hide Places, Entries, Apart, KeyIndex;
    var r := list[i := None];
    HoledPlaces(list, i);
    EntryIndex(list, i);
    EntriesSplit(list, i);
    EntriesSplit(r, i);
    assert r[..i] == list[..i] && r[i + 1..] == list[i + 1..];
    LeftOut(Entries(list[..i]), list[i].value, Entries(list[i + 1..]));
  }

  lemma LeftOut<E>(a: seq<E>, x: E, b: seq<E>)
    ensures (a + [x] + b)[..|a|] == a && (a + [x] + b)[|a| + 1..] == b
  {
  }

  lemma Popped<K, V>(list: seq<Option<(K, V)>>)
    requires Apart(list) && |list| > 0
    ensures var n := |list| - 1; var r := list[n := None];
      Apart(list[..n]) && Places(list[..n]) == Places(r) && Entries(list[..n]) == Entries(r)
  {
  }

  /** A list without holes is its entries. */
  lemma {:induction false} NoHoles<T>(list: seq<Option<T>>)
    requires forall i | 0 <= i < |list| :: list[i].Some?
    ensures |Entries(list)| == |list| && forall i | 0 <= i < |list| :: Entries(list)[i] == list[i].value
  {
    if list != [] { NoHoles(list[..|list| - 1]); }
  }

  lemma DenseApart<K, V>(list: seq<Option<(K, V)>>)
    requires (forall i | 0 <= i < |list| :: list[i].Some?) && Distinct(Entries(list))
    ensures Apart(list)
  {
    NoHoles(list);
  }

  // ---- What `Ae` does to a map --------------------------------------------------------------------------------------

  /** The guard of the compaction, before a removal. */
  predicate Compacts<K, V>(x: State<K, V>) {
    x.view.size >= 32 && x.view.size >= 2 * x.index.size
  }

  /** `u.pop()` */
  ghost predicate PoppedTo<T>(x: ListViews.View<T>, y: ListViews.View<T>) {
    var s := x.size - 1;
    && 0 <= s && y.Ok() && y.size == s && y.Elems() == x.Elems()[..s] && (0 < s ==> ListViews.CutTo(x, y))
    && (0 < s && (Digits.TailOffset(s) == x.Offset() || Digits.TailOffset(s) == Digits.Pow32(x.level)) ==>
          y.blocks == x.blocks && y.level == x.level)
  }

  /** `o.set` or `o.remove`, whatever the index stands for. */
  ghost predicate IndexEdited<K(!new)>(hash: K -> bv32, i: HashMap<K, nat>, j: HashMap<K, nat>, k: K, v: Option<nat>) {
    forall model: map<K, nat> | Represents(hash, i, model) :: Represents(hash, j, Edited(model, k, v))
  }

  ghost predicate DidRemove<K(!new), V>(hash: K -> bv32, x: State<K, V>, k: K, s: nat, y: State<K, V>) {
    && s < x.view.size
    && if Compacts(x) then
         && y.view.Ok() && (forall i | 0 <= i < y.view.size :: y.Elems()[i].Some?)
         && Entries(y.Elems()) == Entries(x.Elems()[s := None]) && Represents(hash, y.index, Places(y.Elems()))
       else
         && IndexEdited(hash, x.index, y.index, k, None)
         && if s == x.view.size - 1 then PoppedTo(x.view, y.view)
            else (s < x.view.Offset() ==> s / 32 < |x.view.blocks|) && y.view == ListViews.Put(x.view, s, None)
  }

  ghost predicate DidReplace<K, V>(x: State<K, V>, k: K, v: V, s: nat, y: State<K, V>) {
    && s < x.view.size
    && if x.Elems()[s].Some? && x.Elems()[s].value.1 == v then y == x
       else
         && y.index == x.index && (s < x.view.Offset() ==> s / 32 < |x.view.blocks|)
         && y.view == ListViews.Put(x.view, s, Some((k, v)))
  }

  ghost predicate DidAppend<K(!new), V>(hash: K -> bv32, x: State<K, V>, k: K, v: V, y: State<K, V>) {
    var n := x.view.size;
    var g := ListViews.Grown(x.view, n + 1);
    && IndexEdited(hash, x.index, y.index, k, Some(n))
    && y.view.Ok() && y.view.size == n + 1 && y.view.level == g.level && y.Elems() == g.Elems()[n := Some((k, v))]
  }

  /** From x, `Ae` makes y: it sets key k, or with None removes it. */
  ghost predicate Did<K(!new), V>(hash: K -> bv32, x: State<K, V>, k: K, v: Option<V>, y: State<K, V>) {
    var at := Lookup(hash, x.index, k);
    if v.None? then if at.None? then y == x else DidRemove(hash, x, k, at.value, y)
    else if at.Some? then DidReplace(x, k, v.value, at.value, y)
    else DidAppend(hash, x, k, v.value, y)
  }

  /** A new key is set, the list's size fills its last block, the tail's array is empty, and the trie still holds a
      block with an element at its place. */
  ghost predicate Shows<K, V>(hash: K -> bv32, x: State<K, V>, k: K, v: Option<V>) {
    v.Some? && Lookup(hash, x.index, k).None? && ListViews.Reappears(x.view)
  }

  lemma Located<K(!new), V>(hash: K -> bv32, x: State<K, V>, k: K)
    requires Agrees(hash, x)
    ensures x.index.size == |Entries(x.Elems())| <= x.view.size
    ensures Lookup(hash, x.index, k).Some? <==> k in Places(x.Elems())
    ensures k in Places(x.Elems()) ==> var s := Lookup(hash, x.index, k).value;
      s == Places(x.Elems())[k] && s < x.view.size && x.Elems()[s].Some? && x.Elems()[s].value.0 == k
  {
    hide RootWF, GetOpt, Lookup, ListViews.View.Ok, ListViews.View.At;
    PlacesAre(x.Elems(), k);
    PlacesCount(x.Elems());
  }

  /** On a map that agrees with the reference, a step of `Ae` goes on agreeing exactly if it shows no removed entry. */
  lemma AgreesIff<K(!new), V>(hash: K -> bv32, x: State<K, V>, k: K, v: Option<V>, y: State<K, V>)
    requires Agrees(hash, x) && Did(hash, x, k, v, y) && x.view.size + 1 < Digits.MAX_CAPACITY
    ensures Entries(y.Elems()) == Change(Entries(x.Elems()), k, v) <==> !Shows(hash, x, k, v)
    ensures !Shows(hash, x, k, v) ==> Agrees(hash, y)
  {
    hide RootWF, GetOpt, Lookup, Entries, Places, KeyIndex, Apart, Agrees, DidRemove, DidReplace, DidAppend,
      ListViews.Reappears;
    Located(hash, x, k);
    var at := Lookup(hash, x.index, k);
    if at.Some? {
      if v.None? { RemovedAgrees(hash, x, k, at.value, y); } else { ReplacedAgrees(hash, x, k, v.value, at.value, y); }
    } else {
      NothingToDrop(hash, x, k);
      if v.Some? { AppendedAgrees(hash, x, k, v.value, y); }
    }
  }

  lemma NothingToDrop<K(!new), V>(hash: K -> bv32, x: State<K, V>, k: K)
    requires Agrees(hash, x) && k !in Places(x.Elems())
    ensures KeyIndex(Entries(x.Elems()), k) == |Entries(x.Elems())| && Drop(Entries(x.Elems()), k) == Entries(x.Elems())
  {
    NoEntry(x.Elems(), k);
  }

  lemma RemovedAgrees<K(!new), V>(hash: K -> bv32, x: State<K, V>, k: K, s: nat, y: State<K, V>)
    requires Agrees(hash, x) && DidRemove(hash, x, k, s, y) && x.Elems()[s].Some? && x.Elems()[s].value.0 == k
    ensures Entries(y.Elems()) == Drop(Entries(x.Elems()), k) && Agrees(hash, y)
  {
    hide RootWF, GetOpt, Lookup, Entries, Places, KeyIndex, Apart, ListViews.View.At, ListViews.Put, ListViews.CutTo;
    var list := x.Elems();
    Holed(list, s);
    PlacesCount(list);
    if Compacts(x) {
      var kept := y.Elems();
      GoodKeysDiffer(list[s := None]);
      DenseApart(kept);
      NoHoles(kept);
      PlacesCount(kept);
    } else {
      EditedSize(Places(list), k, None);
      KeyThere(list, s);
      if s == x.view.size - 1 { Popped(list); } else { ListViews.PutElems(x.view, s, None); }
    }
  }

  lemma KeyThere<K, V>(list: seq<Option<(K, V)>>, s: nat)
    requires Apart(list) && s < |list| && list[s].Some?
    ensures list[s].value.0 in Places(list)
  {
    PlacesAre(list, list[s].value.0);
  }

  lemma ReplacedAgrees<K(!new), V>(hash: K -> bv32, x: State<K, V>, k: K, v: V, s: nat, y: State<K, V>)
    requires Agrees(hash, x) && DidReplace(x, k, v, s, y) && x.Elems()[s].Some? && x.Elems()[s].value.0 == k
    ensures Entries(y.Elems()) == Put(Entries(x.Elems()), k, v) && Agrees(hash, y)
  {
    hide RootWF, GetOpt, Lookup, Entries, Places, KeyIndex, Apart, Represents, ListViews.View.At, ListViews.Put;
    var list := x.Elems();
    SetInPlace(list, s, v);
    if list[s].value.1 == v {
      assert list[s := Some((k, v))] == list;
    } else {
      ListViews.PutElems(x.view, s, Some((k, v)));
    }
  }

  lemma AppendedAgrees<K(!new), V>(hash: K -> bv32, x: State<K, V>, k: K, v: V, y: State<K, V>)
    requires Agrees(hash, x) && DidAppend(hash, x, k, v, y) && k !in Places(x.Elems())
    requires x.view.size + 1 < Digits.MAX_CAPACITY
    ensures Entries(y.Elems()) == Put(Entries(x.Elems()), k, v) <==> !ListViews.Reappears(x.view)
    ensures !ListViews.Reappears(x.view) ==> Agrees(hash, y)
  {
    hide RootWF, GetOpt, Lookup, Entries, Places, KeyIndex, Apart, ListViews.View.At, ListViews.Grown,
      ListViews.Reappears,
      ListViews.LosesTail;
    var n, list := x.view.size, x.Elems();
    var seen := ListViews.Grown(x.view, n + 1).Elems()[..n];
    ListViews.ReappearsIsLoss(x.view);
    ListViews.GrownPrefix(x.view, n + 1);
    assert y.Elems() == seen + [Some((k, v))];
    SetAtEnd(list, k, v);
    EditedSize(Places(list), k, Some(n));
    PlacesCount(list);
    EntriesJoin(seen, [Some((k, v))]);
    EntriesOne(Some((k, v)));
    NoEntry(list, k);
    if ListViews.Reappears(x.view) { MoreSeen(x.view); }
  }

  /** Where a block reappears there are more entries than before. */
  lemma MoreSeen<T>(x: ListViews.View<T>)
    requires x.Ok() && x.size + 1 < Digits.MAX_CAPACITY && ListViews.Reappears(x)
    ensures |Entries(ListViews.Grown(x, x.size + 1).Elems()[..x.size])| > |Entries(x.Elems())|
  {
    hide ListViews.Grown, Entries, ListViews.View.At;
    var n := x.size;
    var g := ListViews.Grown(x, n + 1);
    var i := SeenAgain(x);
    forall j | 0 <= j < n && x.Elems()[j].Some? ensures g.Elems()[j] == x.Elems()[j] { StillSeen(x, j); }
    MoreEntries(g.Elems()[..n], x.Elems(), i);
  }

  lemma SeenAgain<T>(x: ListViews.View<T>) returns (i: nat)
    requires x.Ok() && x.size + 1 < Digits.MAX_CAPACITY && ListViews.Reappears(x)
    ensures i < x.size && x.At(i).None? && ListViews.Grown(x, x.size + 1).At(i).Some?
  {
    hide ListViews.Grown, ListViews.View.At;
    ListViews.ReappearsIsLoss(x);
    var k :| 0 <= k < x.size - x.Offset() && ListViews.Get(x.Hidden(), k).Some?;
    Digits.TailOffsetFacts(x.size);
    Digits.TailOffsetFacts(x.size + 1);
    ListViews.RevealedAt(x, x.size + 1, x.Offset() / 32, k);
    i := 32 * (x.Offset() / 32) + k;
  }

  lemma {:induction false} MoreEntries<T>(a: seq<Option<T>>, b: seq<Option<T>>, i: nat)
    requires |a| == |b| && i < |a| && a[i].Some? && b[i].None?
    requires forall j | 0 <= j < |b| && b[j].Some? :: a[j].Some?
    ensures |Entries(a)| > |Entries(b)|
  {
    var n := |a| - 1;
    if i < n { MoreEntries(a[..n], b[..n], i); } else { NoFewer(a[..n], b[..n]); }
  }

  lemma {:induction false} NoFewer<T>(a: seq<Option<T>>, b: seq<Option<T>>)
    requires |a| == |b| && forall j | 0 <= j < |b| && b[j].Some? :: a[j].Some?
    ensures |Entries(a)| >= |Entries(b)|
  {
    var n := |a| - 1;
    if n >= 0 { NoFewer(a[..n], b[..n]); }
  }

  // ---- The operations -----------------------------------------------------------------------------------------------

  /** `u.filter(...)`: a new list of the entries other than the one at s, made by `set` at its size, entry by entry. */
  method Filter<K(==), V(==)>(list: ListTrie.List<(K, V)>, s: nat) returns (kept: ListTrie.List<(K, V)>)
    requires list.Valid() && s < list.size == |list.elems|
    ensures fresh(kept) && kept.Valid() && kept.ownerID == null
    ensures forall i | 0 <= i < |kept.elems| :: kept.elems[i].Some?
    ensures Entries(kept.elems) == Entries(list.elems[s := None])
  {
    SmallEnough(list);
    var all := list.Iterate();
    kept := ListWithout(all, s);
  }

  /** `List(...)` of the entries that the filter lets through. */
  method ListWithout<E(==)>(all: seq<Option<E>>, s: nat) returns (kept: ListTrie.List<E>)
    requires |all| < Digits.MAX_CAPACITY && s < |all|
    ensures fresh(kept) && kept.Valid() && kept.ownerID == null
    ensures (forall i | 0 <= i < |kept.elems| :: kept.elems[i].Some?) && Entries(kept.elems) == Entries(all[s := None])
  {
    hide Entries, ListTrie.List.Valid, ListTrie.List.View;
    var empty := new ListTrie.List<E>.Empty();
    var m := empty.AsMutable();
    Fill(m, all, s);
    kept := empty.DoneMutating(m);
  }

  lemma SmallEnough<E>(list: ListTrie.List<E>)
    requires list.Valid()
    ensures list.size == |list.elems| < Digits.MAX_CAPACITY
  {
    list.Facts();
  }

  /** The function that the constructor of lists passes to withMutations. */
  method Fill<E(==)>(m: ListTrie.List<E>, all: seq<Option<E>>, s: nat)
    requires m.Valid() && m.ownerID != null && m.elems == [] && m.size == 0 && |all| < Digits.MAX_CAPACITY && s < |all|
    modifies m.Writable()
    ensures m.Valid() && m.ownerID == old(m.ownerID) && (!m.altered ==> m.elems == [])
    ensures forall n | n in m.nodes && n !in old(m.nodes) :: fresh(n)
    ensures (forall i | 0 <= i < |m.elems| :: m.elems[i].Some?) && Entries(m.elems) == Entries(all[s := None])
  {
    hide Entries, ListTrie.List.Valid;
    ghost var holed := all[s := None];
    EntriesNone<E>();
    assert holed[..0] == [];
    var i := 0;
    while i < |all|
      invariant i <= |all| && m.Valid() && m.ownerID == old(m.ownerID) && (!m.altered ==> m.elems == [])
      invariant |m.elems| == m.size <= i && forall j | 0 <= j < |m.elems| :: m.elems[j].Some?
      invariant forall n | n in m.nodes && n !in old(m.nodes) :: fresh(n)
      invariant Entries(m.elems) == Entries(holed[..i])
    {
      FilterStep(m.elems, holed, i);
      if all[i].Some? && i != s { Push(m, all[i].value); }
      i := i + 1;
    }
    assert holed[..i] == holed;
  }

  lemma FilterStep<T>(kept: seq<Option<T>>, holed: seq<Option<T>>, i: nat)
    requires i < |holed| && Entries(kept) == Entries(holed[..i])
    ensures Entries(if holed[i].Some? then kept + [holed[i]] else kept) == Entries(holed[..i + 1])
  {
    hide Entries;
    EntriesSplit(holed, i);
    EntriesJoin(kept, [holed[i]]);
    EntriesOne(holed[i]);
  }

  /** `set` at the size of a mutable list without undefined elements. */
  method Push<E(==)>(m: ListTrie.List<E>, e: E)
    requires m.Valid() && m.ownerID != null && m.size == |m.elems| && m.size + 1 < Digits.MAX_CAPACITY
    requires forall i | 0 <= i < |m.elems| :: m.elems[i].Some?
    modifies m.Writable()
    ensures m.Valid() && m.ownerID == old(m.ownerID) && m.altered && m.size == |m.elems|
    ensures m.elems == old(m.elems) + [Some(e)]
    ensures forall n | n in m.nodes && n !in old(m.nodes) :: fresh(n)
  {
    hide ListTrie.Rep, ListTrie.ViewOf, ListViews.Grown;
    m.Facts();
    ghost var x := m.View();
    ListViews.TailHolds(x);
    ListViews.GrownPrefix(x, x.size + 1);
    var r := m.Set(m.size, Some(e));
    r.Facts();
    assert r.elems == r.elems[..x.size] + [r.elems[x.size]];
  }

  lemma EntriesNone<T>()
    ensures Entries<T>([]) == []
  {
  }

  /** `toKeyedSeq().map(t => t[0]).flip().toMap()`: the index of a list without holes; of two entries with one key the
      later counts. */
  method IndexOfList<K(!new,==), V(==)>(hash: K -> bv32, list: seq<Option<(K, V)>>) returns (index: HashMap<K, nat>)
    requires forall i | 0 <= i < |list| :: list[i].Some?
    ensures Represents(hash, index, Places(list))
  {
    hide Represents;
    index := HashMap(0, None);
    EmptyRepresented(hash, index);
    var i := 0;
    while i < |list|
      invariant i <= |list| && Represents(hash, index, Places(list[..i]))
    {
      assert list[..i + 1][..i] == list[..i];
      index := UpdateMap(hash, index, list[i].value.0, Some(i), Places(list[..i]));
      i := i + 1;
    }
    assert list[..i] == list;
  }

  lemma OneModel<K(!new)>(hash: K -> bv32, i: HashMap<K, nat>, a: map<K, nat>, b: map<K, nat>)
    requires Represents(hash, i, a) && Represents(hash, i, b)
    ensures a == b
  {
    hide RootWF, GetOpt;
    forall k: K ensures k in a <==> k in b { var v := Lookup(hash, i, k); }
    forall k: K | k in a ensures a[k] == b[k] { var v := Lookup(hash, i, k); }
  }

  /** `o.set` or `o.remove` of the index. */
  method EditIndex<K(!new,==)>(hash: K -> bv32, i: HashMap<K, nat>, k: K, v: Option<nat>, ghost model: map<K, nat>)
    returns (j: HashMap<K, nat>)
    requires Represents(hash, i, model)
    ensures Represents(hash, j, Edited(model, k, v)) && IndexEdited(hash, i, j, k, v)
  {
    hide Represents;
    j := UpdateMap(hash, i, k, v, model);
    forall a: map<K, nat> | Represents(hash, i, a) ensures Represents(hash, j, Edited(a, k, v)) {
      OneModel(hash, i, model, a);
    }
  }

  lemma At<K(!new), V>(hash: K -> bv32, x: State<K, V>, k: K, model: map<K, nat>)
    requires Points(hash, x, model)
    ensures var at := Lookup(hash, x.index, k);
      if k in model then at == Some(model[k]) && PointsAt(x.Elems(), k, at.value) else at == None
  {
    hide RootWF, GetOpt;
  }

  /** `Ae`: set, or with None remove, key k. */
  method Update<K(!new,==), V(==)>(hash: K -> bv32, m: Ordered<K, V>, k: K, v: Option<V>, ghost model: map<K, nat>)
    returns (r: Ordered<K, V>, ghost model': map<K, nat>)
    requires Sound(hash, m, model) && m.list.size + 1 < Digits.MAX_CAPACITY
    ensures Sound(hash, r, model') && Did(hash, StateOf(m), k, v, StateOf(r))
    ensures v == Find(hash, StateOf(m), k) ==> r == m
    ensures r.list == m.list || fresh(r.list)
  {
    hide Lookup, Represents, DidRemove, DidReplace, DidAppend, ListTrie.List.Valid, Sound;
    Parts(hash, m, model);
    At(hash, StateOf(m), k, model);
    var at := Lookup(hash, m.index, k);
    if v.None? {
      if at.None? { return m, model; }
      r, model' := RemoveAt(hash, m, k, at.value, model);
    } else if at.Some? {
      r := ReplaceAt(hash, m, k, v.value, at.value, model);
      model' := model;
    } else {
      r, model' := Append(hash, m, k, v.value, model);
    }
  }

  lemma Parts<K(!new), V>(hash: K -> bv32, m: Ordered<K, V>, model: map<K, nat>)
    requires Sound(hash, m, model)
    ensures m.list.Valid() && m.list.ownerID == null && Points(hash, StateOf(m), model)
    ensures m.list.size == |m.list.elems| && m.list.View().size == m.list.size && m.list.elems == m.list.View().Elems()
  {
    m.list.Facts();
  }

  method RemoveAt<K(!new,==), V(==)>(hash: K -> bv32, m: Ordered<K, V>, k: K, s: nat, ghost model: map<K, nat>)
    returns (r: Ordered<K, V>, ghost model': map<K, nat>)
    requires Sound(hash, m, model) && k in model && s == model[k] && PointsAt(StateOf(m).Elems(), k, s)
    ensures Sound(hash, r, model') && DidRemove(hash, StateOf(m), k, s, StateOf(r))
    ensures r.list == m.list || fresh(r.list)
  {
    hide Represents, Entries, Places, ListTrie.Rep, ListTrie.ViewOf, ListViews.CutTo, ListViews.Put, IndexEdited;
    Parts(hash, m, model);
    if m.list.size >= 32 && m.list.size >= 2 * m.index.size {
      r, model' := CompactAt(hash, m, k, s);
      return;
    }
    var index := EditIndex(hash, m.index, k, None, model);
    var list := Hole(m.list, s);
    r := Ordered(index, list);
    model' := Edited(model, k, None);
    RemovedPoints(hash, StateOf(m), k, s, StateOf(r), model);
  }

  lemma RemovedPoints<K(!new), V>(hash: K -> bv32, x: State<K, V>, k: K, s: nat, y: State<K, V>, model: map<K, nat>)
    requires Points(hash, x, model) && k in model && model[k] == s && Represents(hash, y.index, Edited(model, k, None))
    requires if s == x.view.size - 1 then PoppedTo(x.view, y.view)
      else (s < x.view.Offset() ==> s / 32 < |x.view.blocks|) && y.view == ListViews.Put(x.view, s, None)
    ensures Points(hash, y, Edited(model, k, None))
  {
    hide Represents, ListViews.CutTo, ListViews.Put, ListViews.View.At;
    if s != x.view.size - 1 { ListViews.PutElems(x.view, s, None); }
    forall q | q in model && q != k ensures PointsAt(y.Elems(), q, model[q]) {
      assert PointsAt(x.Elems(), q, model[q]);
    }
  }

  /** `s === u.size - 1 ? u.pop() : u.set(s, void 0)` */
  method Hole<E(==)>(u: ListTrie.List<E>, s: nat) returns (list: ListTrie.List<E>)
    requires u.Valid() && u.ownerID == null && s < u.size
    ensures list.Valid() && list.ownerID == null && (list == u || fresh(list))
    ensures var x, y := u.View(), list.View();
      if s == x.size - 1 then PoppedTo(x, y)
      else s < x.size && (s < x.Offset() ==> s / 32 < |x.blocks|) && y == ListViews.Put(x, s, None)
  {
    hide ListTrie.Rep, ListTrie.ViewOf, ListViews.CutTo, ListViews.Put;
    u.Facts();
    if s == u.size - 1 {
      list := u.Pop();
      list.Facts();
    } else {
      list := u.Set(s, None);
    }
  }

  /** The removal that compacts the list and makes the index anew. */
  method CompactAt<K(!new,==), V(==)>(hash: K -> bv32, m: Ordered<K, V>, k: K, s: nat)
    returns (r: Ordered<K, V>, ghost model: map<K, nat>)
    requires m.list.Valid() && s < m.list.size && Compacts(StateOf(m))
    ensures Sound(hash, r, model) && DidRemove(hash, StateOf(m), k, s, StateOf(r)) && fresh(r.list)
  {
    hide Represents, Entries, Places, ListTrie.Rep, ListTrie.ViewOf;
    m.list.Facts();
    var list := Filter(m.list, s);
    list.Facts();
    var all := list.Iterate();
    var index := IndexOfList(hash, all);
    r := Ordered(index, list);
    model := Places(all);
    forall q | q in model ensures PointsAt(all, q, model[q]) { PlacesPoint(all, q); }
  }

  lemma {:induction false} PlacesPoint<K, V>(list: seq<Option<(K, V)>>, k: K)
    requires k in Places(list)
    ensures PointsAt(list, k, Places(list)[k])
  {
    var n := |list| - 1;
    if !(list[n].Some? && list[n].value.0 == k) { PlacesPoint(list[..n], k); }
  }

  method ReplaceAt<K(!new,==), V(==)>(hash: K -> bv32, m: Ordered<K, V>, k: K, v: V, s: nat, ghost model: map<K, nat>)
    returns (r: Ordered<K, V>)
    requires Sound(hash, m, model) && k in model && s == model[k] && PointsAt(StateOf(m).Elems(), k, s)
    ensures Sound(hash, r, model) && DidReplace(StateOf(m), k, v, s, StateOf(r))
    ensures StateOf(m).Elems()[s].value.1 == v ==> r == m
    ensures r.list == m.list || fresh(r.list)
  {
    hide Represents, ListTrie.Rep, ListTrie.ViewOf, ListViews.Put, ListViews.View.At;
    Parts(hash, m, model);
    var entry := m.list.Get(s);
    if v == entry.value.1 { return m; }
    var list := m.list.Set(s, Some((k, v)));
    r := Ordered(m.index, list);
    ListViews.PutElems(m.list.View(), s, Some((k, v)));
    forall q | q in model ensures PointsAt(StateOf(r).Elems(), q, model[q]) {
      assert PointsAt(StateOf(m).Elems(), q, model[q]);
    }
  }

  method Append<K(!new,==), V(==)>(hash: K -> bv32, m: Ordered<K, V>, k: K, v: V, ghost model: map<K, nat>)
    returns (r: Ordered<K, V>, ghost model': map<K, nat>)
    requires Sound(hash, m, model) && k !in model && m.list.size + 1 < Digits.MAX_CAPACITY
    ensures Sound(hash, r, model') && DidAppend(hash, StateOf(m), k, v, StateOf(r))
    ensures r.list == m.list || fresh(r.list)
  {
    hide Represents, ListTrie.Rep, ListTrie.ViewOf, ListViews.Grown, ListViews.View.At, IndexEdited;
    Parts(hash, m, model);
    var index := EditIndex(hash, m.index, k, Some(m.list.size), model);
    var list := m.list.Set(m.list.size, Some((k, v)));
    list.Facts();
    r := Ordered(index, list);
    model' := Edited(model, k, Some(m.list.size));
    AppendedPoints(hash, StateOf(m), k, v, StateOf(r), model);
  }

  lemma AppendedPoints<K(!new), V>(hash: K -> bv32, x: State<K, V>, k: K, v: V, y: State<K, V>, model: map<K, nat>)
    requires Points(hash, x, model) && k !in model && DidAppend(hash, x, k, v, y)
      && x.view.size + 1 < Digits.MAX_CAPACITY
    requires Represents(hash, y.index, Edited(model, k, Some(x.view.size)))
    ensures Points(hash, y, Edited(model, k, Some(x.view.size)))
  {
    hide Represents, ListViews.Grown, ListViews.View.At, IndexEdited;
    forall q | q in model ensures PointsAt(y.Elems(), q, model[q]) {
      assert PointsAt(x.Elems(), q, model[q]);
      StillSeen(x.view, model[q]);
    }
  }

  /** Growing hides no element. */
  lemma StillSeen<T>(x: ListViews.View<T>, j: nat)
    requires x.Ok() && x.size + 1 < Digits.MAX_CAPACITY && j < x.size && x.At(j).Some?
    ensures ListViews.Grown(x, x.size + 1).At(j) == x.At(j)
  {
    hide ListViews.Grown;
    Digits.TailOffsetFacts(x.size);
    Digits.TailOffsetFacts(x.size + 1);
    ListViews.GrownAt(x, x.size + 1, j);
    Digits.BlocksApart(j, x.Offset());
  }

  /** `Ie.clear` */
  method Clear<K(!new,==), V(==)>(hash: K -> bv32, m: Ordered<K, V>, ghost model: map<K, nat>)
    returns (r: Ordered<K, V>, ghost model': map<K, nat>)
    requires Sound(hash, m, model)
    ensures Sound(hash, r, model') && Cleared(StateOf(m), StateOf(r))
    ensures r == m || fresh(r.list)
  {
    if m.index.size == 0 { return m, model; }
    r, model' := Empty(hash);
  }

  ghost predicate Cleared<K, V>(x: State<K, V>, y: State<K, V>) {
    if x.index.size == 0 then y == x else IsEmpty(y)
  }

  ghost predicate IsEmpty<K, V>(x: State<K, V>) {
    x.index == HashMap(0, None) && x.view.Ok() && x.view.size == 0 && x.view.level == 1
  }

  /** `Te` */
  method Empty<K(!new,==), V(==)>(hash: K -> bv32) returns (r: Ordered<K, V>, ghost model: map<K, nat>)
    ensures Sound(hash, r, model) && IsEmpty(StateOf(r)) && fresh(r.list)
  {
    var list := new ListTrie.List<(K, V)>.Empty();
    list.Facts();
    r := Ordered(HashMap(0, None), list);
    EmptyRepresented(hash, r.index);
    model := map[];
  }

  /** `__iterate`: the callback gets the entries, holes left out. */
  method Iterate<K(==), V(==)>(m: Ordered<K, V>) returns (seen: seq<(K, V)>)
    requires m.list.Valid()
    ensures seen == Entries(m.list.elems)
  {
    hide ListTrie.List.Valid;
    var all := m.list.Iterate();
    seen := [];
    var i := 0;
    while i < |all|
      invariant i <= |all| && seen == Entries(all[..i])
    {
      assert all[..i + 1][..i] == all[..i];
      if all[i].Some? { seen := seen + [all[i].value]; }
      i := i + 1;
    }
    assert all[..i] == all;
  }

  // ---- Runs ---------------------------------------------------------------------------------------------------------

  /** `get` finds what the reference holds for the key, and `size` is its length. */
  lemma FindsEntry<K(!new), V>(hash: K -> bv32, x: State<K, V>, k: K)
    requires Agrees(hash, x)
    ensures Find(hash, x, k) == Assoc(Entries(x.Elems()), k) && Size(x) == |Entries(x.Elems())|
  {
    Located(hash, x, k);
    hide Lookup, Agrees;
    var at := Lookup(hash, x.index, k);
    if at.Some? { EntryIndex(x.Elems(), at.value); } else { NoEntry(x.Elems(), k); }
  }

  /** A change is one of the finite map. */
  lemma ChangeLookup<K, V>(s: seq<(K, V)>, k: K, v: Option<V>, x: K)
    requires Distinct(s)
    ensures Assoc(Change(s, k, v), x) == if x == k then v else Assoc(s, x)
  {
    hide KeyIndex;
    var r, i, j := Change(s, k, v), KeyIndex(s, x), KeyIndex(s, k);
    var c := KeyIndex(r, x);
    if v.None? && j < |s| {
      if x != k {
        if i < |s| { assert r[if i < j then i else i - 1] == s[i]; }
        if c < |r| { assert r[c] == s[if c < j then c else c + 1]; }
        ChangeKeepsKeys(s, k, v);
      }
    } else if v.Some? {
      ChangeKeepsKeys(s, k, v);
      assert r[j] == (k, v.value);
      if i < |s| { assert r[i].0 == x; }
    }
  }

  /** A change leaves the order of the other keys alone, and a key that is set again keeps its place. */
  lemma ChangeOrder<K, V>(s: seq<(K, V)>, k: K, v: Option<V>)
    requires Distinct(s)
    ensures Drop(Change(s, k, v), k) == Drop(s, k)
    ensures v.Some? ==> KeyIndex(Change(s, k, v), k) == KeyIndex(s, k)
  {
  }

  datatype Op<K, V> = Set(key: K, value: V) | Remove(key: K) | ClearAll

  /** The reference after a run. */
  function Meaning<K(==), V>(ops: seq<Op<K, V>>): seq<(K, V)> {
    if ops == [] then []
    else
      var before := Meaning(ops[..|ops| - 1]);
      match ops[|ops| - 1]
      case Set(k, v) => Change(before, k, Some(v))
      case Remove(k) => Change(before, k, None)
      case ClearAll => []
  }

  /** One operation takes x to y. */
  ghost predicate Stepped<K(!new), V>(hash: K -> bv32, x: State<K, V>, op: Op<K, V>, y: State<K, V>) {
    match op
    case Set(k, v) => Did(hash, x, k, Some(v), y)
    case Remove(k) => Did(hash, x, k, None, y)
    case ClearAll => Cleared(x, y)
  }

  /** The states of a run from the empty map. */
  ghost predicate IsRun<K(!new), V>(hash: K -> bv32, xs: seq<State<K, V>>, ops: seq<Op<K, V>>) {
    && |xs| == |ops| + 1 && IsEmpty(xs[0]) && |ops| + 1 < Digits.MAX_CAPACITY
    && forall i | 0 <= i < |ops| :: Stepped(hash, xs[i], ops[i], xs[i + 1])
  }

  /** The operation shows removed entries. */
  ghost predicate ShowsIn<K, V>(hash: K -> bv32, x: State<K, V>, op: Op<K, V>) {
    op.Set? && Shows(hash, x, op.key, Some(op.value))
  }

  ghost predicate ShowsNone<K, V>(hash: K -> bv32, xs: seq<State<K, V>>, ops: seq<Op<K, V>>, i: nat) {
    forall j | 0 <= j < i && j < |xs| && j < |ops| :: !ShowsIn(hash, xs[j], ops[j])
  }

  lemma EmptyAgrees<K(!new), V>(hash: K -> bv32, x: State<K, V>)
    requires IsEmpty(x)
    ensures Agrees(hash, x) && Entries(x.Elems()) == []
  {
    EmptyRepresented(hash, x.index);
    assert x.Elems() == [];
  }

  lemma EntriesFew<T>(list: seq<Option<T>>)
    ensures |Entries(list)| <= |list|
  {
  }

  /** No step lengthens the list by more than one. */
  lemma StepGrows<K(!new), V>(hash: K -> bv32, x: State<K, V>, op: Op<K, V>, y: State<K, V>)
    requires Stepped(hash, x, op, y) && x.view.Ok()
    ensures y.view.Ok() && y.view.size <= x.view.size + 1
  {
    hide Lookup, Represents, Entries, Places, ListViews.CutTo, ListViews.View.At, IndexEdited;
    match op
    case Set(k, v) =>
      var at := Lookup(hash, x.index, k);
      if at.Some? && at.value < x.view.size { ListViews.PutElems(x.view, at.value, Some((k, v))); }
    case Remove(k) =>
      var at := Lookup(hash, x.index, k);
      if at.Some? && at.value < x.view.size {
        if Compacts(x) {
          NoHoles(y.Elems());
          EntriesFew(x.Elems()[at.value := None]);
        } else if at.value < x.view.size - 1 {
          ListViews.PutElems(x.view, at.value, None);
        }
      }
    case ClearAll =>
  }

  lemma {:induction false} RunShort<K(!new), V>(hash: K -> bv32, xs: seq<State<K, V>>, ops: seq<Op<K, V>>, i: nat)
    requires IsRun(hash, xs, ops) && i <= |ops|
    ensures xs[i].view.Ok() && xs[i].view.size <= i
  {
    hide Stepped;
    if i > 0 {
      RunShort(hash, xs, ops, i - 1);
      assert Stepped(hash, xs[i - 1], ops[i - 1], xs[i]);
      StepGrows(hash, xs[i - 1], ops[i - 1], xs[i]);
    }
  }

  lemma StepAgrees<K(!new), V>(hash: K -> bv32, x: State<K, V>, ops: seq<Op<K, V>>, i: nat, y: State<K, V>)
    requires i < |ops| && Agrees(hash, x) && Entries(x.Elems()) == Meaning(ops[..i]) && Stepped(hash, x, ops[i], y)
    requires x.view.size + 1 < Digits.MAX_CAPACITY
    ensures Entries(y.Elems()) == Meaning(ops[..i + 1]) <==> !ShowsIn(hash, x, ops[i])
    ensures !ShowsIn(hash, x, ops[i]) ==> Agrees(hash, y)
  {
    hide Agrees, Entries, Did, Shows, Change;
    assert ops[..i + 1][..i] == ops[..i];
    match ops[i]
    case Set(k, v) => AgreesIff(hash, x, k, Some(v), y);
    case Remove(k) =>
      AgreesIff(hash, x, k, None, y);
      RemovalShowsNothing(hash, x, k);
    case ClearAll => ClearedAgrees(hash, x, y);
  }

  lemma RemovalShowsNothing<K, V>(hash: K -> bv32, x: State<K, V>, k: K)
    ensures !Shows(hash, x, k, None)
  {
  }

  lemma ClearedAgrees<K(!new), V>(hash: K -> bv32, x: State<K, V>, y: State<K, V>)
    requires Agrees(hash, x) && Cleared(x, y)
    ensures Entries(y.Elems()) == [] && Agrees(hash, y)
  {
    if x.index.size == 0 { PlacesCount(x.Elems()); } else { EmptyAgrees(hash, y); }
  }

  /** Every run agrees with the reference up to the first operation that shows removed entries, if there is one, and
      disagrees after that one. */
  lemma {:induction false} RunAgrees<K(!new), V>(hash: K -> bv32, xs: seq<State<K, V>>, ops: seq<Op<K, V>>, i: nat)
    requires IsRun(hash, xs, ops) && i <= |ops| && ShowsNone(hash, xs, ops, i)
    ensures Agrees(hash, xs[i]) && Entries(xs[i].Elems()) == Meaning(ops[..i])
    ensures xs[i].view.size - Size(xs[i]) <= Max(31, Size(xs[i]) + 1)
    ensures i < |ops| && ShowsIn(hash, xs[i], ops[i]) ==> Entries(xs[i + 1].Elems()) != Meaning(ops[..i + 1])
  {
    hide Stepped, Entries, Meaning, ShowsIn, Agrees;
    RunShort(hash, xs, ops, i);
    if i > 0 {
      RunAgrees(hash, xs, ops, i - 1);
      assert Stepped(hash, xs[i - 1], ops[i - 1], xs[i]) && !ShowsIn(hash, xs[i - 1], ops[i - 1]);
      RunShort(hash, xs, ops, i - 1);
      StepAgrees(hash, xs[i - 1], ops, i - 1, xs[i]);
    } else {
      EmptyAgrees(hash, xs[0]);
      NoMeaning<K, V>();
      assert ops[..0] == [];
    }
    FewHoles(hash, xs[i]);
    if i < |ops| {
      assert Stepped(hash, xs[i], ops[i], xs[i + 1]);
      StepAgrees(hash, xs[i], ops, i, xs[i + 1]);
    }
  }

  /** Holes are at most 31, or one more than the entries. */
  lemma FewHoles<K(!new), V>(hash: K -> bv32, x: State<K, V>)
    requires Agrees(hash, x)
    ensures x.view.size - Size(x) <= Max(31, Size(x) + 1)
  {
  }

  lemma NoMeaning<K, V>()
    ensures Meaning<K, V>([]) == []
  {
  }

  /** One operation. */
  method Perform<K(!new,==), V(==)>(hash: K -> bv32, m: Ordered<K, V>, op: Op<K, V>, ghost model: map<K, nat>)
    returns (r: Ordered<K, V>, ghost model': map<K, nat>)
    requires Sound(hash, m, model) && m.list.size + 1 < Digits.MAX_CAPACITY
    ensures Sound(hash, r, model') && Stepped(hash, StateOf(m), op, StateOf(r))
    ensures r.list == m.list || fresh(r.list)
  {
    hide Sound, Did, Cleared;
    match op {
      case Set(k, v) => r, model' := Update(hash, m, k, Some(v), model);
      case Remove(k) => r, model' := Update(hash, m, k, None, model);
      case ClearAll => r, model' := Clear(hash, m, model);
    }
  }

  /** Every run from the empty map, with all its versions. As long as no operation shows removed entries, each version
      stands for the reference, and has few holes; after the first that does, it does not. */
  method Run<K(!new,==), V(==)>(hash: K -> bv32, ops: seq<Op<K, V>>)
    returns (versions: seq<Ordered<K, V>>, ghost xs: seq<State<K, V>>)
    requires |ops| + 1 < Digits.MAX_CAPACITY
    ensures |versions| == |xs| == |ops| + 1 && forall i | 0 <= i <= |ops| :: xs[i] == StateOf(versions[i])
    ensures IsRun(hash, xs, ops)
    ensures forall i | 0 <= i <= |ops| && ShowsNone(hash, xs, ops, i) ::
      && Agrees(hash, xs[i]) && Entries(xs[i].Elems()) == Meaning(ops[..i])
      && xs[i].view.size - Size(xs[i]) <= Max(31, Size(xs[i]) + 1)
    ensures forall i | 0 <= i < |ops| && ShowsNone(hash, xs, ops, i) && ShowsIn(hash, xs[i], ops[i]) ::
      Entries(xs[i + 1].Elems()) != Meaning(ops[..i + 1])
  {
    versions, xs := Versions(hash, ops);
    hide *;
    forall i | 0 <= i <= |ops| && ShowsNone(hash, xs, ops, i)
      ensures && Agrees(hash, xs[i]) && Entries(xs[i].Elems()) == Meaning(ops[..i])
              && xs[i].view.size - Size(xs[i]) <= Max(31, Size(xs[i]) + 1)
    {
      RunAgrees(hash, xs, ops, i);
    }
    forall i | 0 <= i < |ops| && ShowsNone(hash, xs, ops, i) && ShowsIn(hash, xs[i], ops[i])
      ensures Entries(xs[i + 1].Elems()) != Meaning(ops[..i + 1])
    {
      RunAgrees(hash, xs, ops, i);
    }
  }

  /** The same; the list is longer by one at most. */
  method PerformShort<K(!new,==), V(==)>(hash: K -> bv32, m: Ordered<K, V>, op: Op<K, V>, ghost model: map<K, nat>)
    returns (r: Ordered<K, V>, ghost model': map<K, nat>)
    requires Sound(hash, m, model) && m.list.size + 1 < Digits.MAX_CAPACITY
    ensures Sound(hash, r, model') && Stepped(hash, StateOf(m), op, StateOf(r)) && r.list.size <= m.list.size + 1
  {
    hide Sound, Stepped, ListViews.View.At;
    Parts(hash, m, model);
    r, model' := Perform(hash, m, op, model);
    Parts(hash, r, model');
    StepGrows(hash, StateOf(m), op, StateOf(r));
  }

  method Versions<K(!new,==), V(==)>(hash: K -> bv32, ops: seq<Op<K, V>>)
    returns (versions: seq<Ordered<K, V>>, ghost xs: seq<State<K, V>>)
    requires |ops| + 1 < Digits.MAX_CAPACITY
    ensures |versions| == |xs| == |ops| + 1 && forall i | 0 <= i <= |ops| :: xs[i] == StateOf(versions[i])
    ensures IsRun(hash, xs, ops)
  {
    hide Sound, Stepped, IsEmpty, ListTrie.List.View;
    var m, model := Empty(hash);
    versions, xs := [m], [StateOf(m)];
    Parts(hash, m, model);
    IsShort(xs[0]);
    var i := 0;
    while i < |ops|
      invariant i <= |ops| && |versions| == |xs| == i + 1 && m == versions[i] && Sound(hash, m, model)
      invariant forall j | 0 <= j <= i :: xs[j] == StateOf(versions[j])
      invariant IsEmpty(xs[0]) && forall j | 0 <= j < i :: Stepped(hash, xs[j], ops[j], xs[j + 1])
      invariant m.list.size <= i
    {
      m, model := PerformShort(hash, m, ops[i], model);
      versions, xs := versions + [m], xs + [StateOf(m)];
      i := i + 1;
    }
  }

  lemma IsShort<K, V>(x: State<K, V>)
    requires IsEmpty(x)
    ensures x.view.size == 0
  {
  }
}
