/** A run of OrderedMap after which it shows entries that were removed. */
module OrderedMapRun {
  import opened HashTrie
  import opened Options
  import opened OrderedMap
  import Digits
  import ListViews

  /** The keys 0 to 64 are set; then 63, 64 and 62 down to 32 are removed; then a new key is set. */
  function Calls(): seq<OrderedMap.Op<int, int>> {
    seq(65, j => Set(j, j)) + [Remove(63), Remove(64)] + seq(31, j => Remove(62 - j)) + [Set(65, 65)]
  }

  lemma CallsAre(i: nat)
    requires i < 99
    ensures |Calls()| == 99
    ensures Calls()[i] ==
      if i < 65 then Set(i, i) else if i == 65 then Remove(63) else if i == 66 then Remove(64)
      else if i < 98 then Remove(62 - (i - 67)) else Set(65, 65)
  {
  }

  function Pairs(n: nat): (s: seq<(int, int)>)
    ensures |s| == n && forall j | 0 <= j < n :: s[j] == (j, j)
  {
    seq(n, j => (j, j))
  }

  /** The block of the entries 32, 33, ... */
  function Second(n: nat): (b: ListViews.Block<(int, int)>)
    ensures |b| == n && forall j | 0 <= j < n :: b[j] == Some((32 + j, 32 + j))
  {
    seq(n, j => Some((32 + j, 32 + j)))
  }

  /** The place of a key is where its entry is. */
  lemma PlaceOf(hash: int -> bv32, x: State<int, int>, k: int)
    requires Agrees(hash, x)
    requires forall j | 0 <= j < x.view.size && x.Elems()[j].Some? :: x.Elems()[j].value.0 == j
    ensures Lookup(hash, x.index, k) == if 0 <= k < x.view.size && x.Elems()[k].Some? then Some(k) else None
    ensures x.index.size == |Entries(x.Elems())|
  {
    hide Entries, Places, Lookup, ListViews.View.At;
    Located(hash, x, k);
    if 0 <= k < x.view.size && x.Elems()[k].Some? { PlacesAre(x.Elems(), k); }
  }

  lemma Viewed(hash: int -> bv32, x: State<int, int>)
    requires Agrees(hash, x)
    ensures x.view.Ok()
  {
  }

  lemma PutPair(n: nat)
    ensures OrderedMap.Put(Pairs(n), n, n) == Pairs(n + 1)
  {
    var i := KeyIndex(Pairs(n), n);
  }

  lemma DropPair(n: nat, k: nat)
    requires k < n
    ensures OrderedMap.Drop(Pairs(n), k) == Pairs(k) + Pairs(n)[k + 1..]
  {
    assert Pairs(n)[k].0 == k;
    var i := KeyIndex(Pairs(n), k);
    assert Pairs(n)[..k] == Pairs(k);
  }

  // ---- The keys are set -------------------------------------------------------------------------------------------

  ghost predicate Full(hash: int -> bv32, x: State<int, int>, n: nat) {
    && Agrees(hash, x) && Entries(x.Elems()) == Pairs(n) && x.view.size == n && x.view.level == 1
    && forall j | 0 <= j < n :: x.Elems()[j] == Some((j, j))
  }

  lemma FullOn(hash: int -> bv32, x: State<int, int>, n: nat, y: State<int, int>)
    requires Full(hash, x, n) && n < 65 && Did(hash, x, n, Some(n), y)
    ensures Full(hash, y, n + 1) && !Shows(hash, x, n, Some(n))
  {
    hide Entries, Places, Lookup, Represents, Agrees, IndexEdited, ListViews.View.At, ListViews.Reappears,
      ListViews.LosesTail;
    Viewed(hash, x);
    PlaceOf(hash, x, n);
    FullView(x.view, n);
    AgreesIff(hash, x, n, Some(n), y);
    PutPair(n);
    assert y.Elems()[..n] == x.Elems();
  }

  lemma FullView(x: ListViews.View<(int, int)>, n: nat)
    requires x.Ok() && x.size == n < 65 && x.level == 1 && forall j | 0 <= j < n :: x.Elems()[j] == Some((j, j))
    ensures !ListViews.Reappears(x) && ListViews.Grown(x, n + 1).Elems()[..n] == x.Elems()
    ensures ListViews.Grown(x, n + 1).level == 1
  {
    if n > 0 { assert x.Elems()[n - 1].Some?; }
    ListViews.TailHolds(x);
    ListViews.ReappearsIsLoss(x);
    ListViews.GrownPrefix(x, n + 1);
    hide ListViews.LosesTail, ListViews.Reappears, ListViews.View.At;
    Digits.TailOffsetFacts(n + 1);
    assert Digits.Pow32(2) == 1024;
  }

  // ---- 63 and 64 are removed --------------------------------------------------------------------------------------

  ghost predicate Gapped(hash: int -> bv32, x: State<int, int>) {
    && Agrees(hash, x) && Entries(x.Elems()) == Pairs(63) + [(64, 64)] && x.view.size == 65 && x.view.level == 1
    && |x.view.blocks| == 32 && x.view.blocks[1] == Second(31)
    && forall j | 0 <= j < 65 :: x.Elems()[j] == if j == 63 then None else Some((j, j))
  }

  lemma FullGapped(hash: int -> bv32, x: State<int, int>, y: State<int, int>)
    requires Full(hash, x, 65) && Did(hash, x, 63, None, y)
    ensures Gapped(hash, y)
  {
    hide Entries, Places, Lookup, Represents, Agrees, IndexEdited, ListViews.View.At, ListViews.Put;
    Viewed(hash, x);
    PlaceOf(hash, x, 63);
    AgreesIff(hash, x, 63, None, y);
    DropPair(65, 63);
    assert Pairs(65)[64..] == [(64, 64)];
    GappedView(x.view);
    ListViews.PutElems(x.view, 63, None);
  }

  lemma GappedView(x: ListViews.View<(int, int)>)
    requires x.Ok() && x.size == 65 && x.level == 1 && forall j | 0 <= j < 65 :: x.Elems()[j] == Some((j, j))
    ensures |x.blocks| == 32 && x.Offset() == 64
    ensures var y := ListViews.Put(x, 63, None);
      y.size == 65 && y.level == 1 && |y.blocks| == 32 && y.blocks[1] == Second(31)
  {
    assert Digits.Pow32(1) == 32;
    forall j | 0 <= j < 32 ensures ListViews.Get(x.blocks[1], j) == Some((32 + j, 32 + j)) {
      assert x.Elems()[32 + j] == x.At(32 + j);
    }
    assert ListViews.Get(x.blocks[1], 31).Some?;
    assert |x.blocks[1]| == 32;
    assert ListViews.Written(x.blocks[1], 31, None) == x.blocks[1][..31];
    assert x.blocks[1][..31] == Second(31);
  }

  /** The list is down to 64 slots; the entries from n on are gone from its tail, but not from the block behind it. */
  ghost predicate Late(hash: int -> bv32, x: State<int, int>, n: nat) {
    && 32 <= n <= 63 && Agrees(hash, x) && Entries(x.Elems()) == Pairs(n) && x.view.size == 64 && x.view.level == 1
    && |x.view.blocks| == 32 && x.view.blocks[1] == Second(31) && x.view.tail == Second(n - 32)
    && forall j | 0 <= j < 64 :: x.Elems()[j] == if j < n then Some((j, j)) else None
  }

  lemma GappedLate(hash: int -> bv32, x: State<int, int>, y: State<int, int>)
    requires Gapped(hash, x) && Did(hash, x, 64, None, y)
    ensures Late(hash, y, 63)
  {
    hide Entries, Places, Lookup, Represents, Agrees, IndexEdited, ListViews.View.At;
    Viewed(hash, x);
    PlaceOf(hash, x, 64);
    AgreesIff(hash, x, 64, None, y);
    var s := Pairs(63) + [(64, 64)];
    assert s[63] == (64, 64);
    assert KeyIndex(s, 64) == 63;
    assert OrderedMap.Drop(s, 64) == Pairs(63);
    assert Digits.Pow32(1) == 32;
    assert y.view.tail == ListViews.Upto(Second(31), 32) == Second(31);
  }

  // ---- 62 down to 32 are removed ----------------------------------------------------------------------------------

  lemma LateOn(hash: int -> bv32, x: State<int, int>, n: nat, y: State<int, int>)
    requires Late(hash, x, n) && n > 32 && Did(hash, x, n - 1, None, y)
    ensures Late(hash, y, n - 1)
  {
    hide Entries, Places, Lookup, Represents, Agrees, IndexEdited, ListViews.View.At;
    Viewed(hash, x);
    PlaceOf(hash, x, n - 1);
    AgreesIff(hash, x, n - 1, None, y);
    DropPair(n, n - 1);
    assert Pairs(n)[n..] == [];
    ListViews.PutElems(x.view, n - 1, None);
    assert ListViews.Written(Second(n - 32), n - 33, None) == Second(n - 32)[..n - 33];
    assert Second(n - 32)[..n - 33] == Second(n - 33);
  }

  // ---- A new key is set -------------------------------------------------------------------------------------------

  lemma LateShows(hash: int -> bv32, x: State<int, int>)
    requires Late(hash, x, 32)
    ensures Shows(hash, x, 65, Some(65))
  {
    hide Entries, Places, Lookup, Represents, Agrees, ListViews.View.At;
    Viewed(hash, x);
    PlaceOf(hash, x, 65);
    assert x.view.Offset() == 32;
    assert x.view.Hidden()[0].Some?;
  }

  /** Key 40 is iterated over again, though it is not found and not counted. */
  lemma Back(hash: int -> bv32, x: State<int, int>, y: State<int, int>)
    requires Late(hash, x, 32) && Did(hash, x, 65, Some(65), y)
    ensures y.view.size == 65 && y.Elems()[40] == Some((40, 40))
    ensures Find(hash, y, 40) == None && Size(y) == 33
  {
    hide Entries, Places, Agrees, RootWF, GetOpt, Lookup, ListViews.View.At, ListViews.Grown;
    Viewed(hash, x);
    PlaceOf(hash, x, 65);
    PlaceOf(hash, x, 40);
    assert x.view.Offset() == 32;
    ListViews.RevealedAt(x.view, 65, 1, 8);
    Located(hash, x, 65);
    Located(hash, x, 40);
    Placed(hash, x);
    EditedSize(Places(x.Elems()), 65, Some(64));
  }

  lemma Placed(hash: int -> bv32, x: State<int, int>)
    requires Agrees(hash, x)
    ensures Represents(hash, x.index, Places(x.Elems()))
  {
  }

  /** Where the run is after i calls. */
  ghost predicate Reached(hash: int -> bv32, x: State<int, int>, i: nat) {
    if i <= 65 then Full(hash, x, i) else if i == 66 then Gapped(hash, x) else i <= 98 && Late(hash, x, 63 - (i - 67))
  }

  lemma ReachedOn(hash: int -> bv32, x: State<int, int>, i: nat, y: State<int, int>)
    requires i < 98 && Reached(hash, x, i) && Stepped(hash, x, Calls()[i], y)
    ensures Reached(hash, y, i + 1) && !ShowsIn(hash, x, Calls()[i])
  {
    hide Full, Gapped, Late, Did;
    CallsAre(i);
    hide Calls;
    if i < 65 {
      FullOn(hash, x, i, y);
    } else if i == 65 {
      FullGapped(hash, x, y);
    } else if i == 66 {
      GappedLate(hash, x, y);
    } else {
      LateOn(hash, x, 63 - (i - 67), y);
    }
  }

  lemma {:induction false} RunReaches(hash: int -> bv32, xs: seq<State<int, int>>, i: nat)
    requires IsRun(hash, xs, Calls()) && i <= 98
    ensures |xs| == 100 && Reached(hash, xs[i], i) && ShowsNone(hash, xs, Calls(), i)
  {
    hide Stepped, Reached, ShowsIn;
    CallsAre(0);
    hide Calls;
    if i == 0 {
      EmptyFull(hash, xs[0]);
    } else {
      RunReaches(hash, xs, i - 1);
      assert Stepped(hash, xs[i - 1], Calls()[i - 1], xs[i]);
      ReachedOn(hash, xs[i - 1], i - 1, xs[i]);
    }
  }

  lemma EmptyFull(hash: int -> bv32, x: State<int, int>)
    requires IsEmpty(x)
    ensures Reached(hash, x, 0)
  {
    EmptyAgrees(hash, x);
  }

  /** After these calls the entries are not those of the reference, whatever the hash: the removed ones are back. */
  lemma RunDiverges(hash: int -> bv32, xs: seq<State<int, int>>)
    requires IsRun(hash, xs, Calls())
    ensures |xs| == 100 && Entries(xs[98].Elems()) == Meaning(Calls()[..98])
    ensures Entries(xs[99].Elems()) != Meaning(Calls())
    ensures xs[99].view.size == 65 && xs[99].Elems()[40] == Some((40, 40))
    ensures Find(hash, xs[99], 40) == None && Size(xs[99]) == 33
  {
    hide Entries, Meaning, Agrees, Did, Late, Find, ListViews.View.At;
    CallsAre(98);
    RunReaches(hash, xs, 98);
    LateShows(hash, xs[98]);
    assert Stepped(hash, xs[98], Calls()[98], xs[99]);
    Back(hash, xs[98], xs[99]);
    RunAgrees(hash, xs, Calls(), 98);
    assert Calls()[..99] == Calls();
  }
}
