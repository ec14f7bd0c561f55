/** Index arithmetic of the 32-way trie: a level of the model is one 5-bit digit, so level k here is `_level == 5 * k`
    in the source. */
module Digits {
  const MAX_CAPACITY := 0x4000_0000

  /** i >>> 5*k */
  function Shr(i: nat, k: nat): nat {
    if k == 0 then i else Shr(i, k - 1) / 32
  }

  /** i >>> 5*k & 31 */
  function Digit(i: nat, k: nat): (d: nat)
    ensures d < 32
  {
    Shr(i, k) % 32
  }

  /** 1 << 5*k */
  function Pow32(k: nat): (p: nat)
    ensures p >= 1
  {
    if k == 0 then 1 else 32 * Pow32(k - 1)
  }

  /** `De`: the index of the first element held by the tail. */
  function TailOffset(size: nat): (t: nat) {
    if size < 32 then 0 else (size - 1) / 32 * 32
  }

  lemma {:induction false} ShrMonotonic(i: nat, j: nat, k: nat)
    requires i <= j
    ensures Shr(i, k) <= Shr(j, k)
  {
    if k > 0 { ShrMonotonic(i, j, k - 1); }
  }

  lemma {:induction false} ShrShift(i: nat, k: nat)
    ensures Shr(i, k + 1) == Shr(i / 32, k)
  {
    if k > 0 { ShrShift(i, k - 1); }
  }

  /** An index fits under a root of k digits exactly when nothing is left after k shifts. */
  lemma {:induction false} FitsIff(i: nat, k: nat)
    ensures i < Pow32(k) <==> Shr(i, k) == 0
  {
    if k > 0 {
      ShrShift(i, k - 1);
      FitsIff(i / 32, k - 1);
    }
  }

  lemma {:induction false} ShrZeroAbove(i: nat, k: nat, m: nat)
    requires Shr(i, k) == 0 && k <= m
    ensures Shr(i, m) == 0
  {
    if k < m { ShrZeroAbove(i, k, m - 1); }
  }

  /** Equal above level k implies equal above every higher level. */
  lemma {:induction false} ShrEqAbove(i: nat, j: nat, k: nat, m: nat)
    requires Shr(i, k) == Shr(j, k) && k <= m
    ensures Shr(i, m) == Shr(j, m)
  {
    if k < m { ShrEqAbove(i, j, k, m - 1); }
  }

  /** The first index of the q-th run of 32^k indices. */
  function Start(q: nat, k: nat): nat {
    q * Pow32(k)
  }

  lemma {:induction false} ShrStart(q: nat, k: nat)
    ensures Shr(Start(q, k), k) == q
  {
    if k > 0 {
      ShrShift(Start(q, k), k - 1);
      assert Start(q, k) == 32 * Start(q, k - 1);
      ShrStart(q, k - 1);
    }
  }

  /** A run is 32 runs of the level below. */
  lemma ChildStart(q: nat, n: nat, k: nat)
    ensures Start(32 * q + n, k) == Start(q, k + 1) + n * Pow32(k)
  {
    assert q * (32 * Pow32(k)) == (32 * q) * Pow32(k);
    assert (32 * q + n) * Pow32(k) == (32 * q) * Pow32(k) + n * Pow32(k);
  }

  lemma RunInside(q: nat, n: nat, k: nat, size: nat)
    requires Start(q, k + 1) <= size && n <= (size - Start(q, k + 1)) / Pow32(k)
    ensures Start(32 * q + n, k) <= size
  {
    ChildStart(q, n, k);
    var r, p := size - Start(q, k + 1), Pow32(k);
    assert n * p <= r / p * p <= r;
  }

  lemma RunsEnd(q: nat, f: nat, k: nat, size: nat)
    requires Start(q, k + 1) <= size
    requires f == if 1 + (size - Start(q, k + 1)) / Pow32(k) < 32 then 1 + (size - Start(q, k + 1)) / Pow32(k) else 32
    ensures Start(32 * q + 32, k) == Start(q + 1, k + 1)
    ensures f == 32 || size < Start(32 * q + f, k) <= Start(q + 1, k + 1)
  {
    ChildStart(q, f, k);
    ChildStart(q, 32, k);
    ChildStart(q + 1, 0, k);
    hide Pow32, Start;
    PastEnd(size - Start(q, k + 1), Pow32(k), f);
  }

  lemma PastEnd(r: nat, p: nat, f: nat)
    requires p > 0 && f <= 32
    ensures f * p <= 32 * p && (f == 1 + r / p ==> r < f * p)
  {
    assert r == r / p * p + r % p;
    assert (1 + r / p) * p == p + r / p * p;
  }

  lemma ShrOne(i: nat)
    ensures Shr(i, 0) == i && Shr(i, 1) == i / 32 && Digit(i, 0) == i % 32
  {
    assert Shr(i, 1) == Shr(i, 0) / 32;
  }

  lemma TailOffsetFacts(size: nat)
    ensures TailOffset(size) % 32 == 0 && TailOffset(size) <= size <= TailOffset(size) + 32
    ensures size > 0 ==> TailOffset(size) == (size - 1) / 32 * 32 && TailOffset(size) < size
  {
  }

  lemma TailOffsetMonotonic(a: nat, b: nat)
    requires a <= b
    ensures TailOffset(a) <= TailOffset(b)
  {
    TailOffsetFacts(a);
    TailOffsetFacts(b);
  }

  /** Two multiples of 32 at least a block apart, or the same. */
  lemma BlocksApart(i: nat, l: nat)
    requires l % 32 == 0
    ensures i / 32 < l / 32 <==> i < l
    ensures i / 32 == l / 32 <==> l <= i < l + 32
    ensures l <= i < l + 32 ==> i % 32 == i - l
  {
  }
}
