/** Signed integers of one to six octets in a Buffer, in both byte orders. */
module SignedInts {
  import opened Arithmetic
  import opened Options

  function Pow256(k: nat): (p: nat)
    requires k <= 6
    ensures p > 0
  {
    if k == 0 then 1
    else if k == 1 then 0x100
    else if k == 2 then 0x1_0000
    else if k == 3 then 0x100_0000
    else if k == 4 then 0x1_0000_0000
    else if k == 5 then 0x100_0000_0000
    else 0x1_0000_0000_0000
  }

  /** The values that n octets can hold in two's complement. */
  predicate InRange(v: int, n: nat)
    requires 1 <= n <= 6
  {
    -128 * Pow256(n - 1) <= v < 128 * Pow256(n - 1)
  }

  /** Octet o of the two's complement of v, the least significant first: floor division by 256 to the power of o. */
  function Octet(v: int, o: nat): (b: int)
    requires o < 6
    ensures 0 <= b < 256
  {
    v / Pow256(o) % 256
  }

  /** `>> 0` on a quotient: towards zero, and then 32 bits with a sign. */
  function Truncated(v: int, u: int): int
    requires u > 0
  {
    if v >= 0 then v / u else -(-v / u)
  }

  /** What is left of v below octet o. */
  function Below(v: int, o: nat): int
    requires o <= 6
  {
    v % Pow256(o)
  }

  /** With a borrow for a negative number that has something below, truncation is floor division. */
  lemma BorrowFloors(v: int, o: nat)
    requires 1 <= o < 6
    ensures Truncated(v, Pow256(o)) - (if v < 0 && Below(v, o) != 0 then 1 else 0) == v / Pow256(o)
  {
  }

  lemma Parts(v: int, p: int)
    requires p > 0
    ensures v == p * (v / p) + v % p && 0 <= v % p < p
  {
  }

  lemma Remainder(v: int, p: int, q: int, r: int)
    requires v == p * q + r && 0 <= r < p
    ensures v / p == q && v % p == r
  {
    Parts(v, p);
    var d := v / p - q;
    assert p * d == r - v % p;
    Multiples(p, d);
  }

  lemma Multiples(p: int, d: int)
    requires p > 0
    ensures (d >= 1 ==> p * d >= p) && (d <= -1 ==> p * d <= -p)
  {
  }

  /** The part below octet o + 1 is that below octet o and the octet. */
  lemma BelowNext(v: int, o: nat)
    requires o < 6
    ensures Below(v, o + 1) == Below(v, o) + Octet(v, o) * Pow256(o)
    ensures Below(v, o + 1) == 0 <==> Below(v, o) == 0 && Octet(v, o) == 0
  {
    var p, q, b := Pow256(o), v / Pow256(o), Octet(v, o);
    Parts(v, p);
    assert q == 256 * (q / 256) + b;
    PowNext(o);
    Scale(v, p, q / 256, b, v % p);
    Remainder(v, Pow256(o + 1), q / 256, b * p + v % p);
  }

  lemma PowNext(o: nat)
    requires o < 6
    ensures Pow256(o + 1) == 256 * Pow256(o)
  {
  }

  lemma Scale(v: int, p: int, h: int, b: int, r: int)
    requires v == p * (256 * h + b) + r && 0 <= b < 256 && 0 <= r < p
    ensures v == 256 * p * h + (b * p + r) && 0 <= b * p + r < 256 * p && (b * p + r == 0 <==> b == 0 && r == 0)
  {
  }

  // ---- Writing ----------------------------------------------------------------------------------------------------

  /** The octets of v, the least significant first. */
  function Octets(v: int, n: nat): (s: seq<int>)
    requires n <= 6
    ensures |s| == n
  {
    seq(n, o requires 0 <= o < n => Octet(v, o))
  }

  function Reversed(s: seq<int>): (r: seq<int>)
    ensures |r| == |s| && forall i | 0 <= i < |s| :: r[i] == s[|s| - 1 - i]
  {
    seq(|s|, i requires 0 <= i < |s| => s[|s| - 1 - i])
  }

  /** Which calls the check `A` of `writeInt..` lets through: an offset before the buffer is among them. */
  predicate Fits(v: int, offset: int, n: nat, length: nat)
    requires 1 <= n <= 6
  {
    InRange(v, n) && offset + n <= length
  }

  /** What `writeIntLE` leaves for octet k. Before the buffer nothing is found to have been written, so from there on a
      negative number borrows, whatever its octets are. */
  function LittleAt(v: int, offset: int, k: nat): int
    requires k < 6
  {
    if v < 0 && offset < 0 && k > 0 && Below(v, k) == 0 then (Octet(v, k) - 1) % 256 else Octet(v, k)
  }

  lemma BorrowIs(v: int, o: nat, borrow: int, before: int)
    requires 1 <= o < 6 && before == Octet(v, o - 1) && borrow == if v < 0 && Below(v, o - 1) != 0 then 1 else 0
    ensures var b := if v < 0 && borrow == 0 && before != 0 then 1 else borrow;
      b == if v < 0 && Below(v, o) != 0 then 1 else 0
  {
    BelowNext(v, o - 1);
  }

  /** The octet that is written with a borrow. */
  lemma WithBorrow(v: int, o: nat, offset: int, borrow: int)
    requires 1 <= o < 6 && borrow == if v < 0 && (offset < 0 || Below(v, o) != 0) then 1 else 0
    ensures (Int32(Truncated(v, Pow256(o))) - borrow) % 256 == LittleAt(v, offset, o)
  {
    BorrowFloors(v, o);
    OctetIs(v, o);
    LittleIs(v, offset, o);
    var t, f, m := Truncated(v, Pow256(o)), v / Pow256(o), Octet(v, o);
    var once := v < 0 && offset < 0 && Below(v, o) == 0;
    hide *;
    var k := Int32Shift(t);
    Same256(Int32(t) - borrow, t - borrow, k);
    if once { Same256(f - 1, m - 1, f / 256); }
  }

  lemma LittleIs(v: int, offset: int, k: nat)
    requires 0 < k < 6
    ensures LittleAt(v, offset, k) ==
      if v < 0 && offset < 0 && Below(v, k) == 0 then (Octet(v, k) - 1) % 256 else Octet(v, k)
  {
  }

  lemma OctetIs(v: int, o: nat)
    requires o < 6
    ensures Octet(v, o) == v / Pow256(o) % 256
  {
  }

  lemma Int32Shift(n: int) returns (k: int)
    ensures Int32(n) == n + 256 * k
  {
    var m := n + 0x8000_0000;
    assert m == m / 0x1_0000_0000 * 0x1_0000_0000 + m % 0x1_0000_0000;
    k := -(m / 0x1_0000_0000 * 0x100_0000);
  }

  /** `b[i]`, undefined outside. */
  function Load(b: seq<int>, i: int): Option<int> {
    if 0 <= i < |b| then Some(b[i]) else None
  }

  /** `b[i] = x`, which is ignored outside. */
  method Store(b: array<int>, i: int, x: int)
    modifies b
    ensures b[..] == if 0 <= i < b.Length then old(b[..])[i := x] else old(b[..])
  {
    if 0 <= i < b.Length { b[i] := x; }
  }

  /** `writeIntLE`; None stands for the error. */
  method WriteIntLE(buffer: array<int>, v: int, offset: int, n: nat) returns (r: Option<int>)
    requires 1 <= n <= 6
    modifies buffer
    ensures r == if Fits(v, offset, n, buffer.Length) then Some(offset + n) else None
    ensures r.Some? <==> 0 <= 2 * v + Pow256(n) < 2 * Pow256(n) && offset + n <= buffer.Length
    ensures forall i | 0 <= i < buffer.Length ::
      buffer[i] == if r.Some? && offset <= i < offset + n then LittleAt(v, offset, i - offset) else old(buffer[i])
  {
    PowNext(n - 1);
    if !Fits(v, offset, n, buffer.Length) { return None; }
    hide Octet, Below, Truncated, Int32, LittleAt;
    FirstOctet(v);
    FirstLittle(v, offset);
    var o, u, borrow := 0, 1, 0;
    Store(buffer, offset, v % 256);
    o := o + 1;
    while o < n
      invariant 1 <= o <= n && u == Pow256(o - 1)
      invariant borrow == if v < 0 && ((offset < 0 && o > 1) || Below(v, o - 1) != 0) then 1 else 0
      invariant forall i | 0 <= i < buffer.Length ::
        buffer[i] == if offset <= i < offset + o then LittleAt(v, offset, i - offset) else old(buffer[i])
    {
      u := u * 256;
      if offset >= 0 {
        LittleInside(v, offset, o - 1);
        BorrowIs(v, o, borrow, buffer[offset + o - 1]);
      }
      if v < 0 && borrow == 0 && Load(buffer[..], offset + o - 1) != Some(0) { borrow := 1; }
      WithBorrow(v, o, offset, borrow);
      Store(buffer, offset + o, (Int32(Truncated(v, u)) - borrow) % 256);
      o := o + 1;
    }
    return Some(offset + n);
  }

  lemma FirstLittle(v: int, offset: int)
    ensures LittleAt(v, offset, 0) == v % 256
  {
  }

  lemma LittleInside(v: int, offset: int, k: nat)
    requires k < 6 && offset >= 0
    ensures LittleAt(v, offset, k) == Octet(v, k)
  {
  }

  /** The octets that `writeIntLE` puts into the buffer are those of the number, exactly unless the number is negative
      and the octets before the buffer are all zero. */
  lemma {:induction false} LittleExactIff(v: int, offset: int, n: nat)
    requires 1 <= n <= 6
    ensures (forall k | 0 <= k < n && offset + k >= 0 :: LittleAt(v, offset, k) == Octet(v, k)) <==>
      !(v < 0 && 0 < -offset < n && Below(v, -offset) == 0)
  {
    hide Octet, Below;
    if v < 0 && 0 < -offset < n {
      OneLess(v, -offset);
      if Below(v, -offset) == 0 {
        assert LittleAt(v, offset, -offset) != Octet(v, -offset);
      } else {
        forall k | -offset <= k < n ensures LittleAt(v, offset, k) == Octet(v, k) { BelowMore(v, -offset, k); }
      }
    }
  }

  /** Then they are those of the number that is less by one octet before the buffer. */
  lemma LittleLess(v: int, offset: int, j: nat, k: nat)
    requires v < 0 && offset + j == 0 && 0 < j <= k < 6 && Below(v, j) == 0
    ensures LittleAt(v, offset, k) == Octet(v - Pow256(j), k)
  {
    var p, q, f := Pow256(j), Pow256(k), Pow256(k - j);
    PowTimes(j, k - j);
    OctetIs(v, k);
    OctetIs(v - p, k);
    LittleIs(v, offset, k);
    Parts(v, p);
    Parts(v, q);
    hide *;
    QuotientLess(v, p, q, f, v / p, v / q, v % q);
    LessOne(v / q);
  }

  lemma LessOne(d: int)
    ensures (d % 256 - 1) % 256 == (d - 1) % 256
  {
    Same256(d - 1, d % 256 - 1, d / 256);
  }

  /** The quotient by q of a multiple of p less p, for q a multiple of p. */
  lemma QuotientLess(v: int, p: int, q: int, f: int, m: int, d: int, r: int)
    requires p > 0 && f > 0 && q == p * f && v == p * m && v == q * d + r && 0 <= r < q
    ensures (v - p) / q == if r == 0 then d - 1 else d
  {
    Multiple(v, p, f, m, d, r);
    if r == 0 {
      Larger(p, f, q);
      Remainder(v - p, q, d - 1, q - p);
    } else {
      Above(p, m - f * d, r);
      Remainder(v - p, q, d, r - p);
    }
  }

  lemma Multiple(v: int, p: int, f: int, m: int, d: int, r: int)
    requires v == p * m && v == p * f * d + r
    ensures r == p * (m - f * d)
  {
  }

  lemma Larger(p: int, f: int, q: int)
    requires p > 0 && f > 0 && q == p * f
    ensures p <= q
  {
  }

  lemma Above(p: int, x: int, r: int)
    requires p > 0 && r == p * x && r > 0
    ensures r >= p
  {
  }

  lemma PowTimes(j: nat, k: nat)
    requires j + k <= 6
    ensures Pow256(j + k) == Pow256(j) * Pow256(k)
  {
  }

  lemma OneLess(v: int, k: nat)
    requires k < 6
    ensures (Octet(v, k) - 1) % 256 != Octet(v, k)
  {
  }

  lemma {:induction false} BelowMore(v: int, j: nat, k: nat)
    requires j <= k < 6 && Below(v, j) != 0
    ensures Below(v, k) != 0
  {
    if j < k {
      BelowMore(v, j, k - 1);
      BelowNext(v, k - 1);
    }
  }

  /** -256 written before the buffer: its second octet is 255, and 254 is put into the buffer. */
  lemma WrongOctet()
    ensures Fits(-256, -1, 2, 1) && Octet(-256, 1) == 255 && LittleAt(-256, -1, 1) == 254
  {
  }

  lemma FirstOctet(v: int)
    ensures Octet(v, 0) == v % 256 && Below(v, 0) == 0
  {
  }

  /** `writeIntBE`, from the last octet to the first. */
  method WriteIntBE(buffer: array<int>, v: int, offset: int, n: nat) returns (r: Option<int>)
    requires 1 <= n <= 6
    modifies buffer
    ensures r == if Fits(v, offset, n, buffer.Length) then Some(offset + n) else None
    ensures r.Some? <==> 0 <= 2 * v + Pow256(n) < 2 * Pow256(n) && offset + n <= buffer.Length
    ensures forall i | 0 <= i < buffer.Length ::
      buffer[i] == if r.Some? && offset <= i < offset + n then Octet(v, offset + n - 1 - i) else old(buffer[i])
  {
    PowNext(n - 1);
    if !Fits(v, offset, n, buffer.Length) { return None; }
    hide Octet, Below, Truncated, Int32, Pow256, LittleAt;
    FirstOctet(v);
    PowZero();
    var o: int, u, borrow := n - 1, 1, 0;
    ghost var k: nat := 0;
    Store(buffer, offset + o, v % 256);
    o := o - 1;
    while o >= 0
      invariant 0 <= k < n && o == n - 2 - k && u == Pow256(k)
      invariant offset + o >= 0 ==> borrow == if v < 0 && Below(v, k) != 0 then 1 else 0
      invariant forall i | 0 <= i < buffer.Length ::
        buffer[i] == if offset + o < i < offset + n then Octet(v, offset + n - 1 - i) else old(buffer[i])
    {
      u := u * 256;
      PowNext(k);
      k := k + 1;
      if offset + o >= 0 { BorrowIs(v, k, borrow, buffer[offset + o + 1]); }
      if v < 0 && borrow == 0 && Load(buffer[..], offset + o + 1) != Some(0) { borrow := 1; }
      if offset + o >= 0 {
        WithBorrow(v, k, 0, borrow);
        LittleInside(v, 0, k);
      }
      Store(buffer, offset + o, (Int32(Truncated(v, u)) - borrow) % 256);
      o := o - 1;
    }
    return Some(offset + n);
  }

  lemma PowZero()
    ensures Pow256(0) == 1
  {
  }

  // ---- Reading ----------------------------------------------------------------------------------------------------

  /** The sum of the first k octets. */
  function Sum(s: seq<int>, k: nat): int
    requires k <= |s| <= 6
  {
    if k == 0 then 0 else Sum(s, k - 1) + s[k - 1] * Pow256(k - 1)
  }

  /** `readIntLE`; None stands for the error. */
  method ReadIntLE(buffer: array<int>, offset: int, n: nat) returns (r: Option<int>)
    requires 1 <= n <= 6
    ensures r.None? <==> offset < 0 || offset + n > buffer.Length
    ensures r.Some? ==> r.value == Signed(buffer[offset..offset + n])
  {
    if offset < 0 || offset + n > buffer.Length { return None; }
    ghost var s := buffer[offset..offset + n];
    var v, i, o := buffer[offset], 1, 0;
    assert Sum(s, 1) == Sum(s, 0) + s[0] * 1;
    o := o + 1;
    while o < n
      invariant 1 <= o <= n && i == Pow256(o - 1) && v == Sum(s, o)
    {
      i := i * 256;
      assert s[o] == buffer[offset + o];
      v := v + buffer[offset + o] * i;
      o := o + 1;
    }
    i := i * 128;
    if v >= i { v := v - Pow256(n); }
    return Some(v);
  }

  /** The number that octets, the least significant first, are in two's complement. */
  function Signed(s: seq<int>): int
    requires 1 <= |s| <= 6
  {
    var v := Sum(s, |s|);
    if v >= 128 * Pow256(|s| - 1) then v - Pow256(|s|) else v
  }

  /** `readIntBE` */
  method ReadIntBE(buffer: array<int>, offset: int, n: nat) returns (r: Option<int>)
    requires 1 <= n <= 6
    ensures r.None? <==> offset < 0 || offset + n > buffer.Length
    ensures r.Some? ==> r.value == Signed(Reversed(buffer[offset..offset + n]))
  {
    if offset < 0 || offset + n > buffer.Length { return None; }
    ghost var s := Reversed(buffer[offset..offset + n]);
    var k, i := n - 1, 1;
    var v := buffer[offset + k];
    assert s[0] == buffer[offset + n - 1] && Sum(s, 1) == Sum(s, 0) + s[0] * 1;
    while k > 0
      invariant 0 <= k < n && i == Pow256(n - 1 - k) && v == Sum(s, n - k)
    {
      i := i * 256;
      k := k - 1;
      assert s[n - 1 - k] == buffer[offset + k];
      v := v + buffer[offset + k] * i;
    }
    i := i * 128;
    if v >= i { v := v - Pow256(n); }
    return Some(v);
  }

  // ---- Round trip -------------------------------------------------------------------------------------------------

  lemma {:induction false} SumBelow(v: int, n: nat, k: nat)
    requires k <= n <= 6
    ensures Sum(Octets(v, n), k) == Below(v, k)
  {
    hide Octet, Below;
    if k == 0 {
      FirstOctet(v);
    } else {
      SumBelow(v, n, k - 1);
      BelowNext(v, k - 1);
    }
  }

  /** The octets of a value in range are read back as the value. */
  lemma SignedOctets(v: int, n: nat)
    requires 1 <= n <= 6 && InRange(v, n)
    ensures Signed(Octets(v, n)) == v
    ensures Signed(Reversed(Reversed(Octets(v, n)))) == v
  {
    SumBelow(v, n, n);
    assert Reversed(Reversed(Octets(v, n))) == Octets(v, n);
    PowNext(n - 1);
    Remainder(v, Pow256(n), if v >= 0 then 0 else -1, if v >= 0 then v else v + Pow256(n));
  }

  /** The range holds the values that n octets can hold. */
  lemma InRangeIff(v: int, n: nat)
    requires 1 <= n <= 6
    ensures InRange(v, n) <==> Signed(Octets(v, n)) == v
  {
    if InRange(v, n) {
      SignedOctets(v, n);
    } else {
      SumBelow(v, n, n);
      PowNext(n - 1);
      Parts(v, Pow256(n));
    }
  }

  /** Reading undoes writing in both byte orders; what does not fit is refused by the write, and an offset before the
      buffer by the read. */
  method WriteAndRead(buffer: array<int>, v: int, offset: int, n: nat, bigEndian: bool) returns (r: Option<int>)
    requires 1 <= n <= 6
    modifies buffer
    ensures r == if Fits(v, offset, n, buffer.Length) && offset >= 0 then Some(v) else None
    ensures forall i | 0 <= i < buffer.Length && !(offset <= i < offset + n) :: buffer[i] == old(buffer[i])
  {
    hide Octet, Octets, InRange, Signed, Reversed, LittleAt;
    var written;
    if bigEndian { written := WriteIntBE(buffer, v, offset, n); } else { written := WriteIntLE(buffer, v, offset, n); }
    if written.None? { return None; }
    SignedOctets(v, n);
    if offset >= 0 {
      OctetsAre(v, n);
      forall k | 0 <= k < n ensures LittleAt(v, offset, k) == Octet(v, k) { LittleInside(v, offset, k); }
      assert buffer[offset..offset + n] == if bigEndian then Reversed(Octets(v, n)) else Octets(v, n);
    }
    if bigEndian { r := ReadIntBE(buffer, offset, n); } else { r := ReadIntLE(buffer, offset, n); }
  }

  lemma OctetsAre(v: int, n: nat)
    requires n <= 6
    ensures forall k | 0 <= k < n :: Octets(v, n)[k] == Octet(v, k) && Reversed(Octets(v, n))[k] == Octet(v, n - 1 - k)
  {
  }
}
