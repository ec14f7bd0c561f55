/** The links of a map's records, as positions; -1 is no record. */
module Shapes {
  import opened Records

  datatype Shape = Shape(gone: seq<bool>, prev: seq<int>, next: seq<int>, first: int, last: int)

  function Following(gone: seq<bool>, j: nat): (n: int)
    requires j <= |gone|
  {
    if NextLive(gone, j) == |gone| then -1 else NextLive(gone, j)
  }

  /** Stepping back from a record, removed or not, passes over removed records only. */
  predicate StepsBack(s: Shape, a: nat)
    requires a < |s.gone| == |s.prev|
  {
    -1 <= s.prev[a] < a && PrevLive(s.gone, s.prev[a] + 1) == PrevLive(s.gone, a)
  }

  /** A record that is there is linked to its neighbours. */
  predicate Joined(s: Shape, a: nat)
    requires a < |s.gone| == |s.prev| == |s.next|
  {
    !s.gone[a] ==> s.prev[a] == PrevLive(s.gone, a) && s.next[a] == Following(s.gone, a + 1)
  }

  predicate Sound(s: Shape) {
    && |s.gone| == |s.prev| == |s.next|
    && (forall a | 0 <= a < |s.gone| :: StepsBack(s, a))
    && (forall a | 0 <= a < |s.gone| :: Joined(s, a))
    && s.first == Following(s.gone, 0) && s.last == PrevLive(s.gone, |s.gone|)
  }

  /** The writes of `delete` for the record x. */
  function Unlinked(s: Shape, x: nat): Shape
    requires x < |s.gone| == |s.prev| == |s.next|
  {
    var a, o := s.prev[x], s.next[x];
    Shape(s.gone[x := true],
          if 0 <= o < |s.prev| then s.prev[o := a] else s.prev,
          if 0 <= a < |s.next| then s.next[a := o] else s.next,
          if s.first == x then o else s.first,
          if s.last == x then a else s.last)
  }

  lemma UnlinkedSound(s: Shape, x: nat)
    requires Sound(s) && x < |s.gone| && !s.gone[x]
    ensures Sound(Unlinked(s, x))
  {
    hide PrevLive, NextLive;
    var t := Unlinked(s, x);
    assert StepsBack(s, x) && Joined(s, x);
    forall a | 0 <= a < |t.gone| ensures StepsBack(t, a) && Joined(t, a) { UnlinkedAt(s, x, a); }
    AfterRemoval(s.gone, x, 0);
    AfterRemoval(s.gone, x, |s.gone|);
    NextSpec(s.gone, 0);
    PrevSpec(s.gone, |s.gone|);
  }

  lemma UnlinkedAt(s: Shape, x: nat, a: nat)
    requires Sound(s) && x < |s.gone| && !s.gone[x] && a < |s.gone|
    ensures StepsBack(Unlinked(s, x), a) && Joined(Unlinked(s, x), a)
  {
    assert StepsBack(s, a) && StepsBack(s, x) && Joined(s, a) && Joined(s, x);
    hide Sound, PrevLive, NextLive;
    UnlinkedStepsBack(s, x, a);
    UnlinkedJoined(s, x, a);
  }

  lemma UnlinkedStepsBack(s: Shape, x: nat, a: nat)
    requires |s.gone| == |s.prev| == |s.next| && x < |s.gone| && !s.gone[x] && a < |s.gone|
    requires StepsBack(s, a) && StepsBack(s, x) && Joined(s, a) && Joined(s, x)
    ensures StepsBack(Unlinked(s, x), a)
  {
    hide PrevLive, NextLive;
    var p, o := s.prev[x], NextLive(s.gone, x + 1);
    PrevSpec(s.gone, x);
    NextSpec(s.gone, x + 1);
    PrevIs(s.gone, p + 1, p);
    Adjacent(s.gone, x, o);
    AfterRemoval(s.gone, x, a);
    AfterRemoval(s.gone, x, s.prev[a] + 1);
    AfterRemoval(s.gone, x, p + 1);
  }

  lemma UnlinkedJoined(s: Shape, x: nat, a: nat)
    requires |s.gone| == |s.prev| == |s.next| && x < |s.gone| && !s.gone[x] && a < |s.gone|
    requires StepsBack(s, a) && StepsBack(s, x) && Joined(s, a) && Joined(s, x)
    ensures Joined(Unlinked(s, x), a)
  {
    hide PrevLive, NextLive;
    NextSpec(s.gone, x + 1);
    Adjacent(s.gone, x, NextLive(s.gone, x + 1));
    PrevSpec(s.gone, x);
    AfterRemoval(s.gone, x, a);
    AfterRemoval(s.gone, x, a + 1);
    if !s.gone[a] && x < a { Adjacent(s.gone, x, a); }
    if !s.gone[a] && a < x { Adjacent(s.gone, a, x); }
  }

  /** The writes of `def` for a new record. */
  function Appended(s: Shape): Shape {
    var n := |s.gone|;
    Shape(s.gone + [false], s.prev + [s.last],
          (if 0 <= s.last < |s.next| then s.next[s.last := n] else s.next) + [-1],
          if s.first == -1 then n else s.first, n)
  }

  lemma AppendedAt(s: Shape, a: nat)
    requires Sound(s) && a <= |s.gone|
    ensures StepsBack(Appended(s), a) && Joined(Appended(s), a)
  {
    hide PrevLive, NextLive;
    var t, n := Appended(s), |s.gone|;
    PrevSpec(s.gone, n);
    AfterAppend(s.gone, a);
    if a < n {
      assert StepsBack(s, a) && Joined(s, a);
      AfterAppend(s.gone, a + 1);
      AfterAppend(s.gone, s.prev[a] + 1);
      if !s.gone[a] { Adjacent(s.gone, a, n); }
    } else {
      AfterAppend(s.gone, s.last + 1);
      PrevIs(s.gone, s.last + 1, s.last);
      NextIs(t.gone, n + 1, n + 1);
    }
  }

  lemma AppendedSound(s: Shape)
    requires Sound(s)
    ensures Sound(Appended(s))
  {
    hide PrevLive, NextLive;
    var t, n := Appended(s), |s.gone|;
    forall a | 0 <= a <= n ensures StepsBack(t, a) && Joined(t, a) { AppendedAt(s, a); }
    AfterAppend(s.gone, 0);
    AfterAppend(s.gone, n);
    Adjacent(s.gone, -1, n);
    PrevIs(t.gone, n + 1, n);
    NextSpec(t.gone, 0);
  }

  /** The cursor rule: from the record c last visited, removed since or not, stepping back to one that is there (or to
      none) and then one step on gives the first record after c that is there. */
  lemma CursorRule(s: Shape, c: int)
    requires Sound(s) && -1 <= c < |s.gone|
    ensures var q := PrevLive(s.gone, c + 1);
      (if q == -1 then s.first else s.next[q]) == Following(s.gone, c + 1)
  {
    hide PrevLive, NextLive;
    var q := PrevLive(s.gone, c + 1);
    PrevSpec(s.gone, c + 1);
    NextSpec(s.gone, c + 1);
    NextIs(s.gone, q + 1, NextLive(s.gone, c + 1));
    assert q >= 0 ==> Joined(s, q);
  }

  /** Once every record is gone, any links that step back are sound. */
  lemma EmptiedSound(s: Shape)
    requires |s.gone| == |s.prev| == |s.next| && s.first == s.last == -1
    requires forall a | 0 <= a < |s.gone| :: s.gone[a] && -1 <= s.prev[a] < a
    ensures Sound(s) && CountLive(s.gone) == 0
  {
    forall a | 0 <= a <= |s.gone| ensures PrevLive(s.gone, a) == -1 { PrevSpec(s.gone, a); }
    NextIs(s.gone, 0, |s.gone|);
    CountNone(s.gone);
  }
}
