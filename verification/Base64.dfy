/** Base64 as in section 4 of RFC 4648: `fromByteArray` and `toByteArray`. */
module Base64 {
  import opened Sequences

  datatype Result<T> = Ok(value: T) | Err

  const MAX_CHUNK_LENGTH := 16383

  /** Table 1 of RFC 4648. */
  const ALPHABET := "ABCDEFGHIJKLMNOPQRSTUVWXYZ" + "abcdefghijklmnopqrstuvwxyz" + "0123456789" + "+/"

  /** The table `r`. */
  function Symbol(d: int): char
    requires 0 <= d < 64
  {
    if d < 26 then 'A' + d as char
    else if d < 52 then 'a' + (d - 26) as char
    else if d < 62 then '0' + (d - 52) as char
    else if d == 62 then '+' else '/'
  }

  /** The table `i`, which also has the URL-safe symbols; what it has not counts as 0. */
  function Digit(c: char): (d: int)
    ensures 0 <= d < 64
  {
    if 'A' <= c <= 'Z' then (c - 'A') as int
    else if 'a' <= c <= 'z' then (c - 'a') as int + 26
    else if '0' <= c <= '9' then (c - '0') as int + 52
    else if c == '+' || c == '-' then 62
    else if c == '/' || c == '_' then 63
    else 0
  }

  lemma SymbolIs(d: int)
    requires 0 <= d < 64
    ensures |ALPHABET| == 64 && Symbol(d) == ALPHABET[d] && Digit(ALPHABET[d]) == d
  {
  }

  lemma DigitIs(c: char)
    ensures Digit('-') == 62 && Digit('_') == 63
    ensures Digit(c) != 0 ==> ALPHABET[Digit(c)] == c || c == '-' || c == '_'
  {
  }

  lemma DigitOfSymbol(d: int)
    requires 0 <= d < 64
    ensures Digit(Symbol(d)) == d && Symbol(d) != '='
  {
  }

  /** Three octets as four groups of six bits; with fewer octets, the bits that are missing are zero. */
  function Quad(x: int, y: int, z: int): seq<char>
    requires 0 <= x < 256 && 0 <= y < 256 && 0 <= z < 256
  {
    [Symbol(x / 4), Symbol(x % 4 * 16 + y / 16), Symbol(y % 16 * 4 + z / 64), Symbol(z % 64)]
  }

  function Encoded(b: seq<int>): seq<char>
    requires Bytes(b)
  {
    if |b| == 0 then []
    else if |b| == 1 then Quad(b[0], 0, 0)[..2] + ['=', '=']
    else if |b| == 2 then Quad(b[0], b[1], 0)[..3] + ['=']
    else Quad(b[0], b[1], b[2]) + Encoded(b[3..])
  }

  /** Whole groups of three octets are encoded by themselves. */
  lemma {:induction false} EncodedJoin(a: seq<int>, b: seq<int>)
    requires Bytes(a) && Bytes(b) && |a| % 3 == 0
    ensures Encoded(a + b) == Encoded(a) + Encoded(b)
  {
    if a == [] {
      assert a + b == b;
    } else {
      assert (a + b)[3..] == a[3..] + b;
      EncodedJoin(a[3..], b);
    }
  }

  lemma {:induction false} EncodedLength(b: seq<int>)
    requires Bytes(b)
    ensures |Encoded(b)| == (|b| + 2) / 3 * 4
  {
    hide Symbol;
    if |b| >= 3 { EncodedLength(b[3..]); }
  }

  /** Octet i, and 0 behind the end. */
  function OctetAt(b: seq<int>, i: nat): int {
    if i < |b| then b[i] else 0
  }

  /** Symbol j of group i is six bits of the number that the octets of the group make, or padding where there is no
      octet. */
  lemma {:induction false} EncodedIs(b: seq<int>, i: nat, j: nat)
    requires Bytes(b) && 3 * i < |b| && j < 4
    ensures |Encoded(b)| == (|b| + 2) / 3 * 4
    ensures var n := OctetAt(b, 3 * i) * 65536 + OctetAt(b, 3 * i + 1) * 256 + OctetAt(b, 3 * i + 2);
      Encoded(b)[4 * i + j] ==
        if 3 * i + j > |b| then '='
        else ALPHABET[(if j == 0 then n / 262144 else if j == 1 then n / 4096 else if j == 2 then n / 64 else n) % 64]
  {
    hide Symbol, ALPHABET, Quad;
    EncodedLength(b);
    if i == 0 {
      FirstGroup(b, j);
    } else {
      EncodedIs(b[3..], i - 1, j);
      EncodedStep(b);
    }
  }

  lemma FirstGroup(b: seq<int>, j: nat)
    requires Bytes(b) && b != [] && j < 4
    ensures |Encoded(b)| >= 4 && Bytes([b[0], OctetAt(b, 1), OctetAt(b, 2)])
    ensures Encoded(b)[j] == if j > |b| then '=' else Quad(b[0], OctetAt(b, 1), OctetAt(b, 2))[j]
    ensures var n := b[0] * 65536 + OctetAt(b, 1) * 256 + OctetAt(b, 2);
      Quad(b[0], OctetAt(b, 1), OctetAt(b, 2))[j] ==
        ALPHABET[(if j == 0 then n / 262144 else if j == 1 then n / 4096 else if j == 2 then n / 64 else n) % 64]
  {
    hide Symbol, ALPHABET;
    EncodedLength(b);
    var y, z := OctetAt(b, 1), OctetAt(b, 2);
    QuadOf(b[0], y, z);
    GroupSymbols(b[0], y, z);
  }

  lemma GroupSymbols(x: int, y: int, z: int)
    requires 0 <= x < 256 && 0 <= y < 256 && 0 <= z < 256
    ensures Quad(x, y, z) ==
      [ALPHABET[x / 4], ALPHABET[x % 4 * 16 + y / 16], ALPHABET[y % 16 * 4 + z / 64], ALPHABET[z % 64]]
  {
    hide Symbol, ALPHABET;
    SymbolIs(x / 4);
    SymbolIs(x % 4 * 16 + y / 16);
    SymbolIs(y % 16 * 4 + z / 64);
    SymbolIs(z % 64);
  }

  lemma Split64(n: int, q: int, r: int)
    requires n == 64 * q + r && 0 <= r < 64
    ensures n / 64 == q && n % 64 == r
  {
  }

  lemma Shifts(n: int)
    ensures n / 4096 == n / 64 / 64 && n / 262144 == n / 64 / 64 / 64
  {
  }

  /** The shifts and masks of `encodeChunk` on the 24-bit number. */
  lemma QuadOf(x: int, y: int, z: int)
    requires 0 <= x < 256 && 0 <= y < 256 && 0 <= z < 256
    ensures var n := x * 65536 + y * 256 + z;
      n / 262144 % 64 == x / 4 && n / 4096 % 64 == x % 4 * 16 + y / 16 && n / 64 % 64 == y % 16 * 4 + z / 64
        && n % 64 == z % 64
  {
    var n := x * 65536 + y * 256 + z;
    Split64(n, x * 1024 + y * 4 + z / 64, z % 64);
    Split64(n / 64, x * 16 + y / 16, y % 16 * 4 + z / 64);
    Split64(n / 64 / 64, x / 4, x % 4 * 16 + y / 16);
    Split64(x / 4, 0, x / 4);
    Shifts(n);
  }

  /** `encodeChunk` */
  method EncodeChunk(t: seq<int>, start: nat, end: nat) returns (o: seq<char>)
    requires Bytes(t) && start <= end <= |t| && (end - start) % 3 == 0
    ensures o == Encoded(t[start..end])
  {
    hide Encoded, Symbol;
    o := [];
    EncodedNothing();
    assert t[start..start] == [];
    var s := start;
    while s < end
      invariant start <= s <= end && (end - s) % 3 == 0 && o == Encoded(t[start..s])
    {
      var n := t[s] * 65536 + t[s + 1] * 256 + t[s + 2];
      EncodedMore(t, start, s);
      o := o + [Symbol(n / 262144 % 64), Symbol(n / 4096 % 64), Symbol(n / 64 % 64), Symbol(n % 64)];
      s := s + 3;
    }
  }

  lemma EncodedMore(t: seq<int>, start: nat, s: nat)
    requires Bytes(t) && start <= s && s + 3 <= |t| && (s - start) % 3 == 0
    ensures var n := t[s] * 65536 + t[s + 1] * 256 + t[s + 2];
      && n >= 0 && Encoded(t[start..s + 3]) ==
        Encoded(t[start..s]) + [Symbol(n / 262144 % 64), Symbol(n / 4096 % 64), Symbol(n / 64 % 64), Symbol(n % 64)]
  {
    hide Encoded, Symbol;
    QuadOf(t[s], t[s + 1], t[s + 2]);
    assert t[start..s + 3] == t[start..s] + [t[s], t[s + 1], t[s + 2]];
    EncodedJoin(t[start..s], [t[s], t[s + 1], t[s + 2]]);
    EncodedThree(t[s], t[s + 1], t[s + 2]);
  }

  lemma EncodedThree(x: int, y: int, z: int)
    requires 0 <= x < 256 && 0 <= y < 256 && 0 <= z < 256
    ensures Encoded([x, y, z]) == Quad(x, y, z)
  {
  }

  lemma TwoOf(x: int, y: int)
    requires 0 <= x < 256 && 0 <= y < 256
    ensures var e := x * 256 + y; e / 1024 == x / 4 && e / 16 % 64 == x % 4 * 16 + y / 16 && e * 4 % 64 == y % 16 * 4
  {
    var e := x * 256 + y;
    Split64(e * 4, x * 16 + y / 16, y % 16 * 4);
    Split64(x * 16 + y / 16, x / 4, x % 4 * 16 + y / 16);
    assert e / 16 == x * 16 + y / 16;
  }

  lemma EncodedNothing()
    ensures Encoded([]) == []
  {
  }

  lemma EncodedOne(x: int)
    requires 0 <= x < 256
    ensures Encoded([x]) == [Symbol(x / 4), Symbol(x * 16 % 64), '=', '=']
  {
  }

  lemma EncodedTwo(x: int, y: int)
    requires 0 <= x < 256 && 0 <= y < 256
    ensures var e := x * 256 + y;
      0 <= e / 1024 < 64 && Encoded([x, y]) == [Symbol(e / 1024), Symbol(e / 16 % 64), Symbol(e * 4 % 64), '=']
  {
    hide Symbol;
    TwoOf(x, y);
  }

  /** `fromByteArray` */
  method FromByteArray(t: seq<int>) returns (o: seq<char>)
    requires Bytes(t)
    ensures o == Encoded(t)
  {
    hide Encoded, Symbol;
    EncodedNothing();
    assert t[..0] == [];
    var n := |t|;
    var extra := n % 3;
    var whole := n - extra;
    o := [];
    var u := 0;
    while u < whole
      invariant 0 <= u && u % 3 == 0 && o == Encoded(t[..if u < whole then u else whole])
    {
      var next := if u + MAX_CHUNK_LENGTH > whole then whole else u + MAX_CHUNK_LENGTH;
      var part := EncodeChunk(t, u, next);
      assert t[..next] == t[..u] + t[u..next];
      EncodedJoin(t[..u], t[u..next]);
      o := o + part;
      u := u + MAX_CHUNK_LENGTH;
    }
    assert t == t[..whole] + t[whole..];
    EncodedJoin(t[..whole], t[whole..]);
    if extra == 1 {
      var e := t[n - 1];
      assert t[whole..] == [e];
      EncodedOne(e);
      o := o + [Symbol(e / 4), Symbol(e * 16 % 64), '=', '='];
    } else if extra == 2 {
      var e := t[n - 2] * 256 + t[n - 1];
      assert t[whole..] == [t[n - 2], t[n - 1]];
      EncodedTwo(t[n - 2], t[n - 1]);
      o := o + [Symbol(e / 1024), Symbol(e / 16 % 64), Symbol(e * 4 % 64), '='];
    } else {
      assert t[whole..] == [];
    }
  }

  // ---- Decoding ---------------------------------------------------------------------------------------------------

  /** `indexOf("=")`, or the length. */
  function IndexOfPad(t: seq<char>, from: nat := 0): (i: nat)
    requires from <= |t|
    ensures from <= i <= |t| && (i < |t| ==> t[i] == '=') && forall j | from <= j < i :: t[j] != '='
    decreases |t| - from
  {
    if from == |t| || t[from] == '=' then from else IndexOfPad(t, from + 1)
  }

  /** The number that four symbols, or what there is of them, stand for. */
  function Number(t: seq<char>, l: nat): int
    requires l + 4 <= |t|
  {
    Digit(t[l]) * 262144 + Digit(t[l + 1]) * 4096 + Digit(t[l + 2]) * 64 + Digit(t[l + 3])
  }

  /** The octets of k quads from l on. */
  function Quads(t: seq<char>, l: nat, k: nat): seq<int>
    requires l + 4 * k <= |t|
    decreases k
  {
    if k == 0 then []
    else
      var e := Number(t, l);
      [e / 65536 % 256, e / 256 % 256, e % 256] + Quads(t, l + 4, k - 1)
  }

  lemma {:induction false} QuadsMore(t: seq<char>, l: nat, k: nat)
    requires l + 4 * (k + 1) <= |t|
    ensures var e := Number(t, l + 4 * k);
      Quads(t, l, k + 1) == Quads(t, l, k) + [e / 65536 % 256, e / 256 % 256, e % 256]
    decreases k
  {
    hide Number;
    if k > 0 { QuadsMore(t, l + 4, k - 1); }
  }

  /** The number of padding signs that `toByteArray` reckons with, when the first is at n. */
  function PadOf(n: nat, len: nat): nat
    requires n <= len
  {
    if n == len then 0 else 4 - n % 4
  }

  /** How many quads its loop goes through. */
  function QuadCount(n: nat, len: nat): nat
    requires n <= len
  {
    if n == len then n / 4 else if n == 0 then 0 else (n - 1) / 4
  }

  function TailSize(pad: nat): nat {
    if pad == 2 then 1 else if pad == 1 || pad == 4 then 2 else 0
  }

  lemma Layout(n: nat, len: nat)
    requires n <= len && len % 4 == 0
    ensures var pad, k := PadOf(n, len), QuadCount(n, len);
      && pad <= 4 && (n == 0 && len > 0 <==> 3 * (n + pad) / 4 - pad < 0)
      && (n > 0 || len == 0 ==> 3 * (n + pad) / 4 - pad == 3 * k + TailSize(pad))
      && 4 * k <= len && (pad > 0 ==> 4 * k + 4 <= len)
      && var f := if pad > 0 then n - 4 else n; if f <= 0 then k == 0 else 4 * k - 3 <= f <= 4 * k
  {
    var m, r := n / 4, n % 4;
    assert n == 4 * m + r;
    if n < len {
      assert n + PadOf(n, len) == 4 * (m + 1);
      assert 3 * (4 * (m + 1)) / 4 == 3 * (m + 1);
      assert n < 4 * (len / 4) && m < len / 4;
      if r == 0 && n > 0 { assert (n - 1) / 4 == m - 1; } else if n > 0 { assert (n - 1) / 4 == m; }
    } else {
      assert 3 * (4 * m) / 4 == 3 * m;
    }
  }

  /** The octets of the last, padded quad. With four padding signs there is none, but room for two octets is made. */
  function TailOf(t: seq<char>, l: nat, pad: nat): (r: seq<int>)
    requires l + 4 <= |t| || pad == 0
    ensures |r| == TailSize(pad)
  {
    if pad == 2 then [(Digit(t[l]) * 4 + Digit(t[l + 1]) / 16) % 256]
    else if pad == 1 then
      var e := Digit(t[l]) * 1024 + Digit(t[l + 1]) * 16 + Digit(t[l + 2]) / 4;
      [e / 256 % 256, e % 256]
    else if pad == 4 then [0, 0] else []
  }

  /** The octets that `toByteArray` makes of a string. */
  function Decoded(t: seq<char>): seq<int>
    requires |t| % 4 == 0
  {
    var n := IndexOfPad(t);
    Layout(n, |t|);
    Quads(t, 0, QuadCount(n, |t|)) + TailOf(t, 4 * QuadCount(n, |t|), PadOf(n, |t|))
  }

  lemma {:induction false} QuadsAt(t: seq<char>, l: nat, k: nat, i: nat)
    requires l + 4 * k <= |t| && i < k
    ensures |Quads(t, l, k)| == 3 * k
    ensures var q, e := Quads(t, l, k), Number(t, l + 4 * i);
      q[3 * i] == e / 65536 % 256 && q[3 * i + 1] == e / 256 % 256 && q[3 * i + 2] == e % 256
    decreases k
  {
    hide Number;
    QuadsSize(t, l, k);
    if i > 0 { QuadsAt(t, l + 4, k - 1, i - 1); }
  }

  lemma {:induction false} QuadsSize(t: seq<char>, l: nat, k: nat)
    requires l + 4 * k <= |t|
    ensures |Quads(t, l, k)| == 3 * k
    decreases k
  {
    hide Number;
    if k > 0 { QuadsSize(t, l + 4, k - 1); }
  }

  /** Four symbols before the padding are 24 bits, and three octets hold them. */
  lemma DecodedAt(t: seq<char>, i: nat)
    requires |t| % 4 == 0
    requires 4 * i + 4 <= IndexOfPad(t) && (IndexOfPad(t) < |t| ==> 4 * i + 4 < IndexOfPad(t))
    ensures 3 * i + 3 <= |Decoded(t)|
    ensures Decoded(t)[3 * i] * 65536 + Decoded(t)[3 * i + 1] * 256 + Decoded(t)[3 * i + 2] ==
      Digit(t[4 * i]) * 262144 + Digit(t[4 * i + 1]) * 4096 + Digit(t[4 * i + 2]) * 64 + Digit(t[4 * i + 3])
  {
    hide Digit, Quads, TailOf;
    var n := IndexOfPad(t);
    Layout(n, |t|);
    QuadsAt(t, 0, QuadCount(n, |t|), i);
    Octets24(Number(t, 4 * i));
  }

  lemma Octets24(e: int)
    requires 0 <= e < 0x1000000
    ensures e / 65536 % 256 * 65536 + e / 256 % 256 * 256 + e % 256 == e
  {
    assert e / 65536 == e / 256 / 256;
  }

  /** How many octets there are, and the last of them: the first 8 bits of two symbols, or the first 16 of three. A
      group of four padding signs counts for two octets, and one of three signs for none. */
  lemma DecodedEnd(t: seq<char>)
    requires |t| % 4 == 0 && (t != [] ==> t[0] != '=')
    ensures var n, r := IndexOfPad(t), Decoded(t);
      && |r| == n / 4 * 3 + (if n == |t| || n % 4 == 1 then 0 else if n % 4 == 0 then -1 else n % 4 - 1)
      && (n < |t| && n % 4 == 0 ==> r[|r| - 2..] == [0, 0])
      && (n < |t| && n % 4 == 2 ==> r[|r| - 1] == (Digit(t[n - 2]) * 64 + Digit(t[n - 1])) / 16)
      && (n < |t| && n % 4 == 3 ==>
            r[|r| - 2] * 256 + r[|r| - 1] == (Digit(t[n - 3]) * 4096 + Digit(t[n - 2]) * 64 + Digit(t[n - 1])) / 4)
  {
    hide Digit, Quads, TailOf;
    var n := IndexOfPad(t);
    var k, pad := QuadCount(n, |t|), PadOf(n, |t|);
    Layout(n, |t|);
    QuadsSize(t, 0, k);
    TailIs(t, 4 * k, pad);
    assert Decoded(t)[3 * k..] == TailOf(t, 4 * k, pad);
  }

  lemma TailIs(t: seq<char>, l: nat, pad: nat)
    requires l + 4 <= |t| || pad == 0
    ensures pad == 4 ==> TailOf(t, l, pad) == [0, 0]
    ensures pad == 2 ==> TailOf(t, l, pad)[0] == (Digit(t[l]) * 64 + Digit(t[l + 1])) / 16
    ensures pad == 1 ==>
      TailOf(t, l, pad)[0] * 256 + TailOf(t, l, pad)[1] ==
        (Digit(t[l]) * 4096 + Digit(t[l + 1]) * 64 + Digit(t[l + 2])) / 4
  {
    hide Digit;
    if pad == 2 {
      FirstEight(Digit(t[l]), Digit(t[l + 1]));
    } else if pad == 1 {
      FirstSixteen(Digit(t[l]), Digit(t[l + 1]), Digit(t[l + 2]));
    }
  }

  lemma FirstEight(a: int, b: int)
    requires 0 <= a < 64 && 0 <= b < 64
    ensures (a * 4 + b / 16) % 256 == (a * 64 + b) / 16
  {
  }

  lemma FirstSixteen(a: int, b: int, c: int)
    requires 0 <= a < 64 && 0 <= b < 64 && 0 <= c < 64
    ensures var e := a * 1024 + b * 16 + c / 4;
      e / 256 % 256 * 256 + e % 256 == (a * 4096 + b * 64 + c) / 4
  {
    var e := a * 1024 + b * 16 + c / 4;
    assert e < 0x10000 && e / 256 < 256;
  }

  /** The loop of `toByteArray` over the quads that start before f. */
  method WriteQuads(t: seq<char>, s: array<int>, f: int, ghost k: nat) returns (a: nat, l: nat)
    requires 4 * k <= |t| && 3 * k <= s.Length && if f <= 0 then k == 0 else 4 * k - 3 <= f <= 4 * k
    modifies s
    ensures a == 3 * k && l == 4 * k && s[..a] == Quads(t, 0, k)
    ensures forall j | a <= j < s.Length :: s[j] == old(s[j])
  {
    hide Quads, Number;
    NoQuads(t);
    a, l := 0, 0;
    ghost var i := 0;
    while l < f
      invariant i <= k && l == 4 * i && a == 3 * i
      invariant s[..a] == Quads(t, 0, i) && forall j | a <= j < s.Length :: s[j] == old(s[j])
    {
      QuadsMore(t, 0, i);
      var e := Number(t, l);
      s[a], s[a + 1], s[a + 2] := e / 65536 % 256, e / 256 % 256, e % 256;
      a, l, i := a + 3, l + 4, i + 1;
    }
  }

  /** `toByteArray`. It fails for a length that is no multiple of four, and for a string that starts with padding. */
  method ToByteArray(t: seq<char>) returns (r: Result<seq<int>>)
    ensures r == if |t| % 4 > 0 || (|t| > 0 && t[0] == '=') then Err else Ok(Decoded(t))
  {
    if |t| % 4 > 0 { return Err; }
    hide Quads, Digit, PadOf, QuadCount;
    var n: int := IndexOfPad(t);
    var pad: int := PadOf(n, |t|);
    ghost var k := QuadCount(n, |t|);
    Layout(n, |t|);
    var size: int := 3 * (n + pad) / 4 - pad;
    if size < 0 { return Err; }
    var s := new int[size](_ => 0);
    var f: int := n;
    if pad > 0 { f := n - 4; }
    var a, l := WriteQuads(t, s, f, k);
    WriteTail(t, s, a, l, pad);
    assert s[..] == s[..a] + s[a..];
    r := Ok(s[..]);
  }

  method WriteTail(t: seq<char>, s: array<int>, a: nat, l: nat, pad: nat)
    requires (l + 4 <= |t| || pad == 0) && s.Length == a + TailSize(pad) && forall j | a <= j < s.Length :: s[j] == 0
    modifies s
    ensures s[..a] == old(s[..a]) && s[a..] == TailOf(t, l, pad)
  {
    hide Digit;
    if pad == 2 {
      s[a] := (Digit(t[l]) * 4 + Digit(t[l + 1]) / 16) % 256;
    } else if pad == 1 {
      var e := Digit(t[l]) * 1024 + Digit(t[l + 1]) * 16 + Digit(t[l + 2]) / 4;
      s[a], s[a + 1] := e / 256 % 256, e % 256;
    }
  }

  lemma NoQuads(t: seq<char>)
    ensures Quads(t, 0, 0) == []
  {
  }

  // ---- Round trip -------------------------------------------------------------------------------------------------

  lemma Octets(x: int, y: int, z: int)
    requires 0 <= x < 256 && 0 <= y < 256 && 0 <= z < 256
    ensures var e := x * 65536 + y * 256 + z; e / 65536 % 256 == x && e / 256 % 256 == y && e % 256 == z
  {
  }

  /** The number of a quad is that of the three octets. */
  lemma NumberOfQuad(t: seq<char>, l: nat, x: int, y: int, z: int)
    requires 0 <= x < 256 && 0 <= y < 256 && 0 <= z < 256 && l + 4 <= |t| && t[l..l + 4] == Quad(x, y, z)
    ensures Number(t, l) == x * 65536 + y * 256 + z
  {
    DigitOfSymbol(x / 4);
    DigitOfSymbol(x % 4 * 16 + y / 16);
    DigitOfSymbol(y % 16 * 4 + z / 64);
    DigitOfSymbol(z % 64);
    hide Digit, Symbol;
    var q := t[l..l + 4];
    assert t[l] == q[0] && t[l + 1] == q[1] && t[l + 2] == q[2] && t[l + 3] == q[3];
  }

  lemma EncodedStep(b: seq<int>)
    requires Bytes(b) && |b| >= 3
    ensures Encoded(b) == Quad(b[0], b[1], b[2]) + Encoded(b[3..]) && |Quad(b[0], b[1], b[2])| == 4
  {
  }

  lemma QuadsStep(t: seq<char>, l: nat, k: nat)
    requires k > 0 && l + 4 * k <= |t|
    ensures var e := Number(t, l); Quads(t, l, k) == [e / 65536 % 256, e / 256 % 256, e % 256] + Quads(t, l + 4, k - 1)
  {
  }

  /** Whole groups come back. */
  lemma {:induction false} QuadsBack(t: seq<char>, l: nat, b: seq<int>, k: nat)
    requires Bytes(b) && |b| == 3 * k && |Encoded(b)| == 4 * k && l + 4 * k <= |t| && t[l..l + 4 * k] == Encoded(b)
    ensures Quads(t, l, k) == b
    decreases k
  {
    hide Encoded, Quad, Number, Quads;
    if k == 0 {
      NoneLeft(t, l);
    } else {
      var e := Encoded(b);
      EncodedStep(b);
      assert t[l..l + 4] == e[..4] && t[l + 4..l + 4 + 4 * (k - 1)] == e[4..];
      QuadsStep(t, l, k);
      NumberOfQuad(t, l, b[0], b[1], b[2]);
      Octets(b[0], b[1], b[2]);
      QuadsBack(t, l + 4, b[3..], k - 1);
      assert b == [b[0], b[1], b[2]] + b[3..];
    }
  }

  lemma NoneLeft(t: seq<char>, l: nat)
    requires l <= |t|
    ensures Quads(t, l, 0) == []
  {
  }

  lemma {:induction false} NoPadding(b: seq<int>)
    requires Bytes(b) && |b| % 3 == 0
    ensures '=' !in Encoded(b)
  {
    if b != [] {
      DigitOfSymbol(b[0] / 4);
      DigitOfSymbol(b[0] % 4 * 16 + b[1] / 16);
      DigitOfSymbol(b[1] % 16 * 4 + b[2] / 64);
      DigitOfSymbol(b[2] % 64);
      hide Symbol, Digit;
      NoPadding(b[3..]);
    }
  }

  /** The last octet of one, and the last two of two. */
  lemma OneBack(x: int)
    requires 0 <= x < 256
    ensures (Digit(Symbol(x / 4)) * 4 + Digit(Symbol(x * 16 % 64)) / 16) % 256 == x
  {
    DigitOfSymbol(x / 4);
    DigitOfSymbol(x * 16 % 64);
    hide Digit, Symbol;
    Split256(x, 0, x);
    var p, q := x / 4, x % 4;
    assert x == 4 * p + q && x * 16 == 64 * p + 16 * q;
    Split64(x * 16, p, 16 * q);
    assert 16 * q / 16 == q;
  }

  lemma Split256(n: int, q: int, r: int)
    requires n == 256 * q + r && 0 <= r < 256
    ensures n / 256 == q && n % 256 == r
  {
  }

  lemma TwoBack(x: int, y: int, e: int)
    requires 0 <= x < 256 && 0 <= y < 256 && e == x * 256 + y
    ensures 0 <= e / 1024 < 64
    ensures var d := Digit(Symbol(e / 1024)) * 1024 + Digit(Symbol(e / 16 % 64)) * 16 + Digit(Symbol(e * 4 % 64)) / 4;
      d / 256 % 256 == x && d % 256 == y
  {
    TwoOf(x, y);
    DigitOfSymbol(e / 1024);
    DigitOfSymbol(e / 16 % 64);
    DigitOfSymbol(e * 4 % 64);
    hide Digit, Symbol;
    var p, q, r, s := x / 4, x % 4, y / 16, y % 16;
    assert x == 4 * p + q && y == 16 * r + s && s * 4 / 4 == s;
    assert p * 1024 + (q * 16 + r) * 16 + s == e;
    Split256(e, x, y);
    Split256(x, 0, x);
  }

  /** Decoding undoes encoding, for any octets. */
  lemma RoundTrip(b: seq<int>)
    requires Bytes(b)
    ensures |Encoded(b)| % 4 == 0 && (b != [] ==> Encoded(b)[0] != '=') && Decoded(Encoded(b)) == b
  {
    hide Encoded, Decoded;
    var whole, rest := b[..3 * (|b| / 3)], b[3 * (|b| / 3)..];
    assert b == whole + rest;
    EncodedLength(b);
    if |rest| == 0 {
      BackWhole(whole, |b| / 3);
      assert whole == b;
    } else if |rest| == 1 {
      BackOne(whole, |b| / 3, rest[0]);
      assert rest == [rest[0]];
    } else {
      BackTwo(whole, |b| / 3, rest[0], rest[1]);
      assert rest == [rest[0], rest[1]];
    }
  }

  /** The first part of a string that starts with whole groups. */
  lemma StartsWhole(t: seq<char>, b: seq<int>, k: nat, last: seq<char>)
    requires Bytes(b) && |b| == 3 * k && t == Encoded(b) + last
    ensures |Encoded(b)| == 4 * k && Quads(t, 0, k) == b && forall j | 0 <= j < 4 * k :: t[j] != '='
  {
    hide Encoded, Quads;
    EncodedLength(b);
    NoPadding(b);
    var e := Encoded(b);
    assert |e| == 4 * k;
    assert t[0..0 + 4 * k] == e;
    QuadsBack(t, 0, b, k);
    forall j | 0 <= j < 4 * k ensures t[j] != '=' { assert t[j] == e[j]; }
  }

  /** Where the padding is says how the string is decoded. */
  lemma DecodedAs(t: seq<char>, k: nat, pad: nat)
    requires pad <= 2 && |t| == 4 * k + (if pad == 0 then 0 else 4)
    requires IndexOfPad(t) == |t| - pad
    ensures |t| % 4 == 0 && Decoded(t) == Quads(t, 0, k) + TailOf(t, 4 * k, pad)
  {
    hide Quads, TailOf;
    Layout(IndexOfPad(t), |t|);
    assert PadOf(IndexOfPad(t), |t|) == pad;
    assert QuadCount(IndexOfPad(t), |t|) == k;
  }

  lemma BackWhole(b: seq<int>, k: nat)
    requires Bytes(b) && |b| == 3 * k
    ensures var t := Encoded(b); |t| % 4 == 0 && (b != [] ==> t != [] && t[0] != '=') && Decoded(t) == b
  {
    hide Encoded, Quads, Decoded;
    var t := Encoded(b);
    assert t == Encoded(b) + [];
    StartsWhole(t, b, k, []);
    DecodedAs(t, k, 0);
  }

  lemma BackOne(b: seq<int>, k: nat, x: int)
    requires Bytes(b) && |b| == 3 * k && 0 <= x < 256
    ensures var t := Encoded(b + [x]); |t| % 4 == 0 && t != [] && t[0] != '=' && Decoded(t) == b + [x]
  {
    hide Encoded, Quads, Symbol, Digit, Decoded;
    EncodedJoin(b, [x]);
    EncodedOne(x);
    var t, last := Encoded(b + [x]), Encoded([x]);
    StartsWhole(t, b, k, last);
    assert t[4 * k] == last[0] && t[4 * k + 1] == last[1] && t[4 * k + 2] == last[2];
    SymbolsAreNotPadding(x / 4, x * 16 % 64, 0);
    DecodedAs(t, k, 2);
    OneBack(x);
  }

  lemma BackTwo(b: seq<int>, k: nat, x: int, y: int)
    requires Bytes(b) && |b| == 3 * k && 0 <= x < 256 && 0 <= y < 256
    ensures var t := Encoded(b + [x, y]); |t| % 4 == 0 && t != [] && t[0] != '=' && Decoded(t) == b + [x, y]
  {
    hide Encoded, Quads, Symbol, Digit, Decoded;
    EncodedJoin(b, [x, y]);
    EncodedTwo(x, y);
    var t, last, e := Encoded(b + [x, y]), Encoded([x, y]), x * 256 + y;
    StartsWhole(t, b, k, last);
    assert t[4 * k] == last[0] && t[4 * k + 1] == last[1] && t[4 * k + 2] == last[2] && t[4 * k + 3] == last[3];
    TwoOf(x, y);
    SymbolsAreNotPadding(e / 1024, e / 16 % 64, e * 4 % 64);
    DecodedAs(t, k, 1);
    TwoBack(x, y, e);
  }

  lemma SymbolsAreNotPadding(a: int, b: int, c: int)
    requires 0 <= a < 64 && 0 <= b < 64 && 0 <= c < 64
    ensures Symbol(a) != '=' && Symbol(b) != '=' && Symbol(c) != '='
  {
  }
}
