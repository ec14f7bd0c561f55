/** The bit tricks of Immutable.Map: its population count and the sets of digits kept in 32 bits. */
module HashBits {
  /** Bit i of x. */
  predicate Has(x: bv32, i: bv32)
    requires i < 32
  {
    (x >> i) & 1 == 1
  }

  function Value(x: bv32): nat {
    x as nat
  }

  /** How many of the bits below n are set. */
  function CountBelow(x: bv32, n: bv32): (c: nat)
    requires n <= 32
    ensures c <= n as nat
  {
    if n == 0 then 0 else CountBelow(x, n - 1) + if Has(x, n - 1) then 1 else 0
  }

  /** The lines of `se`: sums over fields of 2, 4, 8 and finally 32 bits. */
  function Pairs(x: bv32): bv32 {
    x - ((x >> 1) & 0x5555_5555)
  }

  function Quads(a: bv32): bv32 {
    (a & 0x3333_3333) + ((a >> 2) & 0x3333_3333)
  }

  function Bytes(b: bv32): bv32 {
    (b + (b >> 4)) & 0x0f0f_0f0f
  }

  function Total(c: bv32): bv32 {
    var d := c + (c >> 8);
    (d + (d >> 16)) & 127
  }

  /** `se` */
  function PopCount(x: bv32): bv32 {
    Total(Bytes(Quads(Pairs(x))))
  }

  function Byte(x: bv32, s: bv32): bv32
    requires s <= 32
  {
    (x >> s) & 255
  }

  /** The field sums work on each byte by itself. */
  lemma BytewisePairs(x: bv32)
    ensures Byte(Pairs(x), 0) == Pairs(Byte(x, 0)) && Byte(Pairs(x), 8) == Pairs(Byte(x, 8))
    ensures Byte(Pairs(x), 16) == Pairs(Byte(x, 16)) && Byte(Pairs(x), 24) == Pairs(Byte(x, 24))
  {
  }

  lemma BytewiseQuads(a: bv32)
    ensures Byte(Quads(a), 0) == Quads(Byte(a, 0)) && Byte(Quads(a), 8) == Quads(Byte(a, 8))
    ensures Byte(Quads(a), 16) == Quads(Byte(a, 16)) && Byte(Quads(a), 24) == Quads(Byte(a, 24))
  {
  }

  lemma BytewiseBytes(b: bv32)
    requires b & 0x8888_8888 == 0
    ensures Byte(Bytes(b), 0) == Bytes(Byte(b, 0)) && Byte(Bytes(b), 8) == Bytes(Byte(b, 8))
    ensures Byte(Bytes(b), 16) == Bytes(Byte(b, 16)) && Byte(Bytes(b), 24) == Bytes(Byte(b, 24))
  {
  }

  lemma ByteSum(m: bv32)
    requires m <= 255
    ensures Bytes(Quads(Pairs(m))) ==
      (m & 1) + ((m >> 1) & 1) + ((m >> 2) & 1) + ((m >> 3) & 1)
      + ((m >> 4) & 1) + ((m >> 5) & 1) + ((m >> 6) & 1) + ((m >> 7) & 1)
  {
  }

  lemma FieldTotal(c: bv32)
    requires c & 0xf0f0_f0f0 == 0
    ensures Total(c) == Byte(c, 0) + Byte(c, 8) + Byte(c, 16) + Byte(c, 24)
  {
  }

  lemma AddSmall(p: bv32, q: bv32)
    requires p <= 32 && q <= 8
    ensures Value(p + q) == Value(p) + Value(q)
  {
  }

  lemma {:induction false} CountByte(x: bv32, s: bv32, n: bv32)
    requires s <= 24 && n <= 8
    ensures CountBelow(Byte(x, s), n) == CountBelow(x, s + n) - CountBelow(x, s)
  {
    if n == 0 {
      NoneBelow(Byte(x, s));
    } else {
      hide CountBelow, Has, Byte;
      CountByte(x, s, n - 1);
      SameBit(x, s, n);
      CountNext(x, s + n);
      CountNext(Byte(x, s), n);
    }
  }

  lemma CountNext(x: bv32, n: bv32)
    requires 0 < n <= 32
    ensures CountBelow(x, n) == CountBelow(x, n - 1) + if Has(x, n - 1) then 1 else 0
  {
  }

  lemma SameBit(x: bv32, s: bv32, n: bv32)
    requires s <= 24 && 0 < n <= 8
    ensures 0 < s + n <= 32 && s + (n - 1) == s + n - 1 && Has(Byte(x, s), n - 1) == Has(x, s + n - 1)
  {
  }

  /** The bits below n, added up. */
  function BitSum(m: bv32, n: bv32): bv32
    requires n <= 8
  {
    if n == 0 then 0 else BitSum(m, n - 1) + ((m >> (n - 1)) & 1)
  }

  lemma {:induction false} BitSumCounts(m: bv32, n: bv32)
    requires n <= 8
    ensures BitSum(m, n) <= n && Value(BitSum(m, n)) == CountBelow(m, n)
  {
    if n > 0 {
      BitSumCounts(m, n - 1);
      AddSmall(BitSum(m, n - 1), (m >> (n - 1)) & 1);
    }
  }

  lemma BitSumUnrolled(m: bv32)
    ensures BitSum(m, 8) ==
      (m & 1) + ((m >> 1) & 1) + ((m >> 2) & 1) + ((m >> 3) & 1)
      + ((m >> 4) & 1) + ((m >> 5) & 1) + ((m >> 6) & 1) + ((m >> 7) & 1)
  {
    assert BitSum(m, 1) == m & 1;
    assert BitSum(m, 2) == (m & 1) + ((m >> 1) & 1);
    assert BitSum(m, 4) == BitSum(m, 2) + ((m >> 2) & 1) + ((m >> 3) & 1);
    assert BitSum(m, 6) == BitSum(m, 4) + ((m >> 4) & 1) + ((m >> 5) & 1);
    assert BitSum(m, 8) == BitSum(m, 6) + ((m >> 6) & 1) + ((m >> 7) & 1);
  }

  /** A byte of the field sums holds the count of the eight bits it started from. */
  lemma CountEight(x: bv32, s: bv32)
    requires s == 0 || s == 8 || s == 16 || s == 24
    ensures var f := Byte(Fields(x), s);
      f <= 8 && Value(f) == CountBelow(x, s + 8) - CountBelow(x, s)
  {
    var m := Byte(x, s);
    assert m <= 255 && Quads(Pairs(x)) & 0x8888_8888 == 0;
    BytewisePairs(x);
    BytewiseQuads(Pairs(x));
    BytewiseBytes(Quads(Pairs(x)));
    hide Bytes, Quads, Pairs, CountBelow, BitSum, Byte, Value;
    ByteSum(m);
    BitSumUnrolled(m);
    BitSumCounts(m, 8);
    CountByte(x, s, 8);
  }

  lemma AddFour(p: bv32, q: bv32, r: bv32, s: bv32)
    requires p <= 8 && q <= 8 && r <= 8 && s <= 8
    ensures Value(p + q + r + s) == Value(p) + Value(q) + Value(r) + Value(s)
  {
    hide Value;
    AddSmall(p, q);
    var t := p + q;
    assert t <= 16;
    AddSmall(t, r);
    var u := t + r;
    assert u <= 24;
    AddSmall(u, s);
  }

  function Fields(x: bv32): bv32 {
    Bytes(Quads(Pairs(x)))
  }

  lemma ByteOf(x: bv32, s: bv32, t: bv32) returns (f: bv32)
    requires (s == 0 || s == 8 || s == 16 || s == 24) && t == s + 8
    ensures f == Byte(Fields(x), s) && f <= 8 && Value(f) == CountBelow(x, t) - CountBelow(x, s)
  {
    f := Byte(Fields(x), s);
    CountEight(x, s);
  }

  lemma PopCountAdds(x: bv32)
    ensures PopCount(x) == Byte(Fields(x), 0) + Byte(Fields(x), 8) + Byte(Fields(x), 16) + Byte(Fields(x), 24)
  {
    FieldTotal(Fields(x));
  }

  /** `se` is the population count. */
  lemma PopCountCounts(x: bv32)
    ensures Value(PopCount(x)) == CountBelow(x, 32)
  {
    hide *;
    PopCountAdds(x);
    var p := ByteOf(x, 0, 8);
    var q := ByteOf(x, 8, 16);
    var r := ByteOf(x, 16, 24);
    var s := ByteOf(x, 24, 32);
    AddFour(p, q, r, s);
    NoneBelow(x);
  }

  lemma NoneBelow(x: bv32)
    ensures CountBelow(x, 0) == 0
  {
  }

  /** `h >>> 5 * level` */
  function Shifted(h: bv32, level: nat): bv32 {
    if level == 0 then h else Shifted(h, level - 1) >> 5
  }

  /** `h >>> 5 * level & 31` */
  function Digit(h: bv32, level: nat): (d: bv32)
    ensures d < 32
  {
    Shifted(h, level) & 31
  }

  lemma ShiftOnce(h: bv32, level: nat)
    ensures Shifted(h, level + 1) == Shifted(h, level) >> 5
  {
  }

  lemma SevenShifts(h: bv32)
    ensures ((((((h >> 5) >> 5) >> 5) >> 5) >> 5) >> 5) >> 5 == 0
  {
  }

  lemma ShiftedOut(h: bv32)
    ensures Shifted(h, 7) == 0
  {
    assert Shifted(h, 0) == h;
    hide Shifted;
    ShiftOnce(h, 0);
    ShiftOnce(h, 1);
    ShiftOnce(h, 2);
    ShiftOnce(h, 3);
    ShiftOnce(h, 4);
    ShiftOnce(h, 5);
    ShiftOnce(h, 6);
    SevenShifts(h);
  }

  lemma {:induction false} SameTop(h: bv32, g: bv32, level: nat)
    requires level <= 7 && forall m: nat | level <= m < 7 :: Digit(h, m) == Digit(g, m)
    ensures Shifted(h, level) == Shifted(g, level)
    decreases 7 - level
  {
    if level == 7 {
      ShiftedOut(h);
      ShiftedOut(g);
    } else {
      SameTop(h, g, level + 1);
      assert Digit(h, level) == Digit(g, level);
    }
  }

  /** Seven digits tell two hashes apart. */
  lemma SevenDigits(h: bv32, g: bv32)
    requires forall m: nat | m < 7 :: Digit(h, m) == Digit(g, m)
    ensures h == g
  {
    SameTop(h, g, 0);
  }

  /** `bitmap & bit - 1`, the digits before d. */
  function Before(bm: bv32, d: bv32): bv32
    requires d < 32
  {
    bm & ((1 << d) - 1)
  }

  /** `bitmap | bit` */
  function With(bm: bv32, d: bv32): bv32
    requires d < 32
  {
    bm | (1 << d)
  }

  /** `bitmap ^ bit` */
  function Toggled(bm: bv32, d: bv32): bv32
    requires d < 32
  {
    bm ^ (1 << d)
  }

  /** `bitmap & bit` */
  predicate Tested(bm: bv32, d: bv32)
    requires d < 32
  {
    bm & (1 << d) != 0
  }

  /** The rank of digit d in a bitmap: `se(bitmap & bit - 1)`. */
  function Rank(bm: bv32, d: bv32): nat
    requires d < 32
  {
    Value(PopCount(Before(bm, d)))
  }

  lemma BitTested(bm: bv32, d: bv32)
    requires d < 32
    ensures Tested(bm, d) <==> Has(bm, d)
  {
  }

  lemma BitBefore(bm: bv32, d: bv32, i: bv32)
    requires d < 32 && i < 32
    ensures Has(Before(bm, d), i) <==> i < d && Has(bm, i)
  {
  }

  lemma BitWith(bm: bv32, d: bv32, i: bv32)
    requires d < 32 && i < 32
    ensures Has(With(bm, d), i) <==> Has(bm, i) || i == d
  {
  }

  lemma BitToggled(bm: bv32, d: bv32, i: bv32)
    requires d < 32 && i < 32
    ensures Has(Toggled(bm, d), i) <==> Has(bm, i) != (i == d)
  {
  }

  lemma {:induction false} CountBefore(bm: bv32, d: bv32, n: bv32)
    requires d < 32 && n <= 32
    ensures CountBelow(Before(bm, d), n) == CountBelow(bm, if n <= d then n else d)
  {
    hide *;
    if n == 0 {
      NoneBelow(bm);
      NoneBelow(Before(bm, d));
    } else {
      CountBefore(bm, d, n - 1);
      BitBefore(bm, d, n - 1);
      CountNext(bm, n);
      CountNext(Before(bm, d), n);
    }
  }

  /** The rank counts the digits before d that are in the bitmap. */
  lemma RankCounts(bm: bv32, d: bv32)
    requires d < 32
    ensures Rank(bm, d) == CountBelow(bm, d)
  {
    hide CountBelow, PopCount, Value, Before;
    PopCountCounts(Before(bm, d));
    CountBefore(bm, d, 32);
  }

  lemma {:induction false} CountMonotone(bm: bv32, m: bv32, n: bv32)
    requires m <= n <= 32
    ensures CountBelow(bm, m) <= CountBelow(bm, n)
    ensures m < n && Has(bm, m) ==> CountBelow(bm, m) < CountBelow(bm, n)
    decreases n
  {
    hide *;
    if m < n {
      CountMonotone(bm, m, n - 1);
      CountNext(bm, n);
    }
  }

  lemma {:induction false} CountWith(bm: bv32, d: bv32, n: bv32)
    requires d < 32 && n <= 32 && !Has(bm, d)
    ensures CountBelow(With(bm, d), n) == CountBelow(bm, n) + if d < n then 1 else 0
  {
    hide *;
    if n == 0 {
      NoneBelow(bm);
      NoneBelow(With(bm, d));
    } else {
      CountWith(bm, d, n - 1);
      BitWith(bm, d, n - 1);
      CountNext(bm, n);
      CountNext(With(bm, d), n);
    }
  }

  lemma {:induction false} CountToggled(bm: bv32, d: bv32, n: bv32)
    requires d < 32 && n <= 32 && Has(bm, d)
    ensures CountBelow(Toggled(bm, d), n) == CountBelow(bm, n) - if d < n then 1 else 0
  {
    hide *;
    if n == 0 {
      NoneBelow(bm);
      NoneBelow(Toggled(bm, d));
    } else {
      CountToggled(bm, d, n - 1);
      BitToggled(bm, d, n - 1);
      CountNext(bm, n);
      CountNext(Toggled(bm, d), n);
    }
  }
}
