/** Positions of the records of a map: gone[i] says that record i has been removed. */
module Records {
  /** The last record before j that is still there, or -1. */
  function PrevLive(gone: seq<bool>, j: nat): (p: int)
    requires j <= |gone|
    ensures -1 <= p < j
  {
    if j == 0 then -1 else if !gone[j - 1] then j - 1 else PrevLive(gone, j - 1)
  }

  /** The first record from j on that is still there, or the number of records. */
  function NextLive(gone: seq<bool>, j: nat): (n: nat)
    requires j <= |gone|
    ensures j <= n <= |gone|
    decreases |gone| - j
  {
    if j == |gone| || !gone[j] then j else NextLive(gone, j + 1)
  }

  function CountLive(gone: seq<bool>): nat {
    if gone == [] then 0
    else CountLive(gone[..|gone| - 1]) + if gone[|gone| - 1] then 0 else 1
  }

  lemma {:induction false} CountAfterRemoval(gone: seq<bool>, a: nat)
    requires a < |gone| && !gone[a]
    ensures CountLive(gone[a := true]) == CountLive(gone) - 1
  {
    var n := |gone| - 1;
    if a < n {
      assert gone[a := true][..n] == gone[..n][a := true];
      CountAfterRemoval(gone[..n], a);
    } else {
      assert gone[a := true][..n] == gone[..n];
    }
  }

  lemma {:induction false} CountNone(gone: seq<bool>)
    requires forall k | 0 <= k < |gone| :: gone[k]
    ensures CountLive(gone) == 0
  {
    if gone != [] { CountNone(gone[..|gone| - 1]); }
  }

  lemma {:induction false} CountSome(gone: seq<bool>, a: nat)
    requires a < |gone| && !gone[a]
    ensures CountLive(gone) > 0
  {
    if a < |gone| - 1 { CountSome(gone[..|gone| - 1], a); }
  }

  lemma {:induction false} PrevSpec(gone: seq<bool>, j: nat)
    requires j <= |gone|
    ensures var p := PrevLive(gone, j); (p >= 0 ==> !gone[p]) && forall k | p < k < j :: gone[k]
  {
    if j > 0 && gone[j - 1] { PrevSpec(gone, j - 1); }
  }

  lemma {:induction false} NextSpec(gone: seq<bool>, j: nat)
    requires j <= |gone|
    ensures var n := NextLive(gone, j); (n < |gone| ==> !gone[n]) && forall k | j <= k < n :: gone[k]
    decreases |gone| - j
  {
    if j < |gone| && gone[j] { NextSpec(gone, j + 1); }
  }

  /** Which record a neighbour search finds is decided by what it finds. */
  lemma {:induction false} PrevIs(gone: seq<bool>, j: nat, p: int)
    requires j <= |gone| && -1 <= p < j && (p >= 0 ==> !gone[p]) && forall k | p < k < j :: gone[k]
    ensures PrevLive(gone, j) == p
  {
    if j > 0 && gone[j - 1] { PrevIs(gone, j - 1, p); }
  }

  lemma {:induction false} NextIs(gone: seq<bool>, j: nat, n: nat)
    requires j <= n <= |gone| && (n < |gone| ==> !gone[n]) && forall k | j <= k < n :: gone[k]
    ensures NextLive(gone, j) == n
    decreases |gone| - j
  {
    if j < |gone| && gone[j] { NextIs(gone, j + 1, n); }
  }

  /** Two records (or the ends) see each other, or neither sees the other. */
  lemma Adjacent(gone: seq<bool>, x: int, a: nat)
    requires -1 <= x < a <= |gone| && (x >= 0 ==> !gone[x]) && (a < |gone| ==> !gone[a])
    ensures PrevLive(gone, a) == x <==> NextLive(gone, x + 1) == a
  {
    PrevSpec(gone, a);
    NextSpec(gone, x + 1);
    if PrevLive(gone, a) == x { NextIs(gone, x + 1, a); }
    if NextLive(gone, x + 1) == a { PrevIs(gone, a, x); }
  }

  /** Removing record a hands its searches on to its neighbours. */
  lemma AfterRemoval(gone: seq<bool>, a: nat, j: nat)
    requires a < |gone| && !gone[a] && j <= |gone|
    ensures var gone' := gone[a := true];
      && PrevLive(gone', j) == (if PrevLive(gone, j) == a then PrevLive(gone, a) else PrevLive(gone, j))
      && NextLive(gone', j) == if NextLive(gone, j) == a then NextLive(gone, a + 1) else NextLive(gone, j)
  {
    var gone' := gone[a := true];
    PrevSpec(gone, j);
    NextSpec(gone, j);
    PrevSpec(gone, a);
    NextSpec(gone, a + 1);
    PrevIs(gone', j, if PrevLive(gone, j) == a then PrevLive(gone, a) else PrevLive(gone, j));
    NextIs(gone', j, if NextLive(gone, j) == a then NextLive(gone, a + 1) else NextLive(gone, j));
  }

  lemma AfterAppend(gone: seq<bool>, j: nat)
    requires j <= |gone|
    ensures PrevLive(gone + [false], j) == PrevLive(gone, j)
    ensures NextLive(gone + [false], j) == NextLive(gone, j)
    ensures CountLive(gone + [false]) == CountLive(gone) + 1
  {
    PrevSpec(gone, j);
    NextSpec(gone, j);
    PrevIs(gone + [false], j, PrevLive(gone, j));
    NextIs(gone + [false], j, NextLive(gone, j));
    assert (gone + [false])[..|gone|] == gone;
  }
}
