/** UTF-8 in Buffer: the encoder `Q`, the decoder `N` and the write into a buffer, against section 3 of RFC 3629. */
module Utf8 {
  import opened Options
  import opened Sequences
  import opened Utf16

  const REPLACEMENT := 0xFFFD
  const MAX_ARGUMENTS_LENGTH := 4096

  // ---- Characters, their code units and their octets --------------------------------------------------------------

  predicate Scalar(c: int) {
    0 <= c < 0x110000 && !High(c) && !Low(c)
  }

  /** UTF-16 */
  function UnitsOf(c: int): (r: seq<int>)
    requires Scalar(c)
    ensures 1 <= |r| <= 2 && forall i | 0 <= i < |r| :: Unit(r[i])
  {
    if c < 0x10000 then [c] else [0xD800 + (c - 0x10000) / 0x400, 0xDC00 + (c - 0x10000) % 0x400]
  }

  /** The table of section 3 of RFC 3629. */
  function Encoded(c: int): (r: seq<int>)
    requires Scalar(c)
    ensures 1 <= |r| <= 4 && forall i | 0 <= i < |r| :: Byte(r[i])
  {
    if c < 0x80 then [c]
    else if c < 0x800 then [0xC0 + c / 0x40, 0x80 + c % 0x40]
    else if c < 0x10000 then [0xE0 + c / 0x1000, 0x80 + c / 0x40 % 0x40, 0x80 + c % 0x40]
    else [0xF0 + c / 0x40000, 0x80 + c / 0x1000 % 0x40, 0x80 + c / 0x40 % 0x40, 0x80 + c % 0x40]
  }

  ghost predicate Scalars(cs: seq<int>) {
    forall i | 0 <= i < |cs| :: Scalar(cs[i])
  }

  function EncodedAll(cs: seq<int>): seq<int>
    requires Scalars(cs)
  {
    if cs == [] then [] else Encoded(cs[0]) + EncodedAll(cs[1..])
  }

  function UnitsAll(cs: seq<int>): seq<int>
    requires Scalars(cs)
  {
    if cs == [] then [] else UnitsOf(cs[0]) + UnitsAll(cs[1..])
  }

  // ---- Decoding ---------------------------------------------------------------------------------------------------

  predicate Continuation(b: int) {
    b / 0x40 == 2
  }

  function SequenceLength(b: int): nat {
    if b > 239 then 4 else if b > 223 then 3 else if b > 191 then 2 else 1
  }

  /** The switch of `N`: the character that starts at i, or None where the decoder puts a replacement. */
  function DecodeAt(b: seq<int>, i: nat): Option<int>
    requires i < |b|
  {
    var l := SequenceLength(b[i]);
    if i + l > |b| then None
    else if l == 1 then if b[i] < 128 then Some(b[i]) else None
    else if l == 2 then
      var a := b[i] % 0x20 * 0x40 + b[i + 1] % 0x40;
      if Continuation(b[i + 1]) && a > 127 then Some(a) else None
    else if l == 3 then
      var a := b[i] % 0x10 * 0x1000 + b[i + 1] % 0x40 * 0x40 + b[i + 2] % 0x40;
      if Continuation(b[i + 1]) && Continuation(b[i + 2]) && a > 2047 && (a < 55296 || a > 57343) then Some(a) else None
    else
      var a := b[i] % 0x10 * 0x40000 + b[i + 1] % 0x40 * 0x1000 + b[i + 2] % 0x40 * 0x40 + b[i + 3] % 0x40;
      if Continuation(b[i + 1]) && Continuation(b[i + 2]) && Continuation(b[i + 3]) && a > 65535 && a < 1114112
      then Some(a)
      else None
  }

  /** The octets at i are those of character c. */
  ghost predicate StartsWith(b: seq<int>, i: nat, c: int) {
    Scalar(c) && i + |Encoded(c)| <= |b| && b[i..i + |Encoded(c)|] == Encoded(c)
  }

  lemma SeqIs1(b: seq<int>, i: nat, x: int)
    requires i < |b|
    ensures b[i..i + 1] == [x] <==> b[i] == x
  {
  }

  lemma SeqIs2(b: seq<int>, i: nat, x: int, y: int)
    requires i + 2 <= |b|
    ensures b[i..i + 2] == [x, y] <==> b[i] == x && b[i + 1] == y
  {
  }

  lemma SeqIs3(b: seq<int>, i: nat, x: int, y: int, z: int)
    requires i + 3 <= |b|
    ensures b[i..i + 3] == [x, y, z] <==> b[i] == x && b[i + 1] == y && b[i + 2] == z
  {
  }

  lemma SeqIs4(b: seq<int>, i: nat, x: int, y: int, z: int, w: int)
    requires i + 4 <= |b|
    ensures b[i..i + 4] == [x, y, z, w] <==> b[i] == x && b[i + 1] == y && b[i + 2] == z && b[i + 3] == w
  {
  }

  /** The switch accepts exactly the octets that section 3 of RFC 3629 gives a character: no overlong form, no
      surrogate, nothing above U+10FFFF. */
  lemma DecodesExactly(b: seq<int>, i: nat, c: int)
    requires Bytes(b) && i < |b|
    ensures DecodeAt(b, i) == Some(c) <==> StartsWith(b, i, c)
    ensures DecodeAt(b, i) == Some(c) ==> |Encoded(c)| == SequenceLength(b[i])
  {
    assert Byte(b[i]);
    if DecodeAt(b, i) == Some(c) { DecodedStarts(b, i, c); }
    if StartsWith(b, i, c) { StartDecoded(b, i, c); }
  }

  lemma Join2(c: int, p: int, q: int)
    requires 0 <= q < 0x40
    ensures c == p * 0x40 + q <==> p == c / 0x40 && q == c % 0x40
  {
  }

  lemma Join3(c: int, p: int, q: int, r: int)
    requires 0 <= q < 0x40 && 0 <= r < 0x40
    ensures c == p * 0x1000 + q * 0x40 + r <==> p == c / 0x1000 && q == c / 0x40 % 0x40 && r == c % 0x40
  {
  }

  lemma Join4(c: int, p: int, q: int, r: int, s: int)
    requires 0 <= q < 0x40 && 0 <= r < 0x40 && 0 <= s < 0x40
    ensures c == p * 0x40000 + q * 0x1000 + r * 0x40 + s <==>
      p == c / 0x40000 && q == c / 0x1000 % 0x40 && r == c / 0x40 % 0x40 && s == c % 0x40
  {
    var d := p * 0x1000 + q * 0x40 + r;
    assert c == d * 0x40 + s <==> d == c / 0x40 && s == c % 0x40;
    Join3(c / 0x40, p, q, r);
    assert c / 0x40 / 0x1000 == c / 0x40000 && c / 0x40 / 0x40 == c / 0x1000;
  }

  lemma Tail(y: int)
    requires Byte(y)
    ensures Continuation(y) <==> y == 0x80 + y % 0x40
    ensures 0 <= y % 0x40 < 0x40
  {
  }

  lemma DecodedStarts(b: seq<int>, i: nat, c: int)
    requires Bytes(b) && i < |b| && DecodeAt(b, i) == Some(c)
    ensures StartsWith(b, i, c) && |Encoded(c)| == SequenceLength(b[i])
  {
    var x, l := b[i], SequenceLength(b[i]);
    assert Byte(x);
    if l == 1 {
      SeqIs1(b, i, c);
    } else if l == 2 {
      Tail(b[i + 1]);
      Lead2(x);
      hide Continuation;
      Join2(c, x % 0x20, b[i + 1] % 0x40);
      SeqIs2(b, i, 0xC0 + c / 0x40, 0x80 + c % 0x40);
    } else if l == 3 {
      Tail(b[i + 1]);
      Tail(b[i + 2]);
      Lead3(x);
      hide Continuation;
      Join3(c, x % 0x10, b[i + 1] % 0x40, b[i + 2] % 0x40);
      SeqIs3(b, i, 0xE0 + c / 0x1000, 0x80 + c / 0x40 % 0x40, 0x80 + c % 0x40);
    } else {
      Decoded4(b, i, c);
    }
  }

  lemma Decoded4(b: seq<int>, i: nat, c: int)
    requires Bytes(b) && i < |b| && DecodeAt(b, i) == Some(c) && SequenceLength(b[i]) == 4
    ensures StartsWith(b, i, c) && |Encoded(c)| == 4
  {
    var x := b[i];
    assert Byte(x);
    Tail(b[i + 1]);
    Tail(b[i + 2]);
    Tail(b[i + 3]);
    Lead4(x);
    hide Continuation;
    Join4(c, x % 0x10, b[i + 1] % 0x40, b[i + 2] % 0x40, b[i + 3] % 0x40);
    SeqIs4(b, i, 0xF0 + c / 0x40000, 0x80 + c / 0x1000 % 0x40, 0x80 + c / 0x40 % 0x40, 0x80 + c % 0x40);
  }

  lemma Lead2(x: int)
    ensures 191 < x <= 223 ==> x == 0xC0 + x % 0x20
  {
  }

  lemma Lead3(x: int)
    ensures 223 < x <= 239 ==> x == 0xE0 + x % 0x10
  {
  }

  lemma Lead4(x: int)
    ensures 239 < x <= 255 ==> x == 0xF0 + x % 0x10
  {
  }

  lemma StartDecoded(b: seq<int>, i: nat, c: int)
    requires Bytes(b) && i < |b| && StartsWith(b, i, c)
    ensures DecodeAt(b, i) == Some(c)
  {
    if c < 0x80 {
      SeqIs1(b, i, c);
    } else if c < 0x800 {
      SeqIs2(b, i, 0xC0 + c / 0x40, 0x80 + c % 0x40);
    } else if c < 0x10000 {
      SeqIs3(b, i, 0xE0 + c / 0x1000, 0x80 + c / 0x40 % 0x40, 0x80 + c % 0x40);
      Start3(b, i, c);
    } else {
      SeqIs4(b, i, 0xF0 + c / 0x40000, 0x80 + c / 0x1000 % 0x40, 0x80 + c / 0x40 % 0x40, 0x80 + c % 0x40);
      Start4(b, i, c);
    }
  }

  lemma Start3(b: seq<int>, i: nat, c: int)
    requires Bytes(b) && i + 3 <= |b| && 0x800 <= c < 0x10000 && !High(c) && !Low(c)
    requires b[i] == 0xE0 + c / 0x1000 && b[i + 1] == 0x80 + c / 0x40 % 0x40 && b[i + 2] == 0x80 + c % 0x40
    ensures DecodeAt(b, i) == Some(c)
  {
    Tail(b[i + 1]);
    Tail(b[i + 2]);
    Join3(c, c / 0x1000, c / 0x40 % 0x40, c % 0x40);
  }

  lemma Start4(b: seq<int>, i: nat, c: int)
    requires Bytes(b) && i + 4 <= |b| && 0x10000 <= c < 0x110000
    requires b[i] == 0xF0 + c / 0x40000 && b[i + 1] == 0x80 + c / 0x1000 % 0x40
    requires b[i + 2] == 0x80 + c / 0x40 % 0x40 && b[i + 3] == 0x80 + c % 0x40
    ensures DecodeAt(b, i) == Some(c)
  {
    Tail(b[i + 1]);
    Tail(b[i + 2]);
    Tail(b[i + 3]);
    Join4(c, c / 0x40000, c / 0x1000 % 0x40, c / 0x40 % 0x40, c % 0x40);
  }

  /** What `N` makes of the octets from i on: characters, and a replacement for each octet that starts none. */
  function Decoded(b: seq<int>, i: nat): seq<int>
    requires Bytes(b)
    decreases |b| - i
  {
    if i >= |b| then []
    else if DecodeAt(b, i).None? then [REPLACEMENT] + Decoded(b, i + 1)
    else
      var c := DecodeAt(b, i).value;
      DecodesExactly(b, i, c);
      UnitsOf(c) + Decoded(b, i + SequenceLength(b[i]))
  }

  lemma DecodedStep(b: seq<int>, i: nat)
    requires Bytes(b) && i < |b|
    ensures DecodeAt(b, i).None? ==> Decoded(b, i) == [REPLACEMENT] + Decoded(b, i + 1)
    ensures DecodeAt(b, i).Some? ==> var c := DecodeAt(b, i).value;
      Scalar(c) && SequenceLength(b[i]) > 0 && Decoded(b, i) == UnitsOf(c) + Decoded(b, i + SequenceLength(b[i]))
  {
  }

  lemma DecodedEnd(b: seq<int>, i: nat)
    requires Bytes(b) && i >= |b|
    ensures Decoded(b, i) == []
  {
  }

  /** The decoder against RFC 3629, for any octets at all. */
  lemma DecodesReference(b: seq<int>, i: nat)
    requires Bytes(b) && i < |b|
    ensures forall c | StartsWith(b, i, c) :: Decoded(b, i) == UnitsOf(c) + Decoded(b, i + |Encoded(c)|)
    ensures (forall c :: !StartsWith(b, i, c)) ==> Decoded(b, i) == [REPLACEMENT] + Decoded(b, i + 1)
  {
    hide Decoded, DecodeAt, Encoded, UnitsOf, SequenceLength;
    DecodedStep(b, i);
    forall c | StartsWith(b, i, c) ensures Decoded(b, i) == UnitsOf(c) + Decoded(b, i + |Encoded(c)|) {
      DecodesExactly(b, i, c);
    }
    if DecodeAt(b, i).Some? { DecodesExactly(b, i, DecodeAt(b, i).value); }
  }

  /** `fromCharCode` applied to at most 4096 units at a time. */
  method DecodeCodePointsArray(units: seq<int>) returns (r: seq<int>)
    ensures r == units
  {
    if |units| <= MAX_ARGUMENTS_LENGTH { return units; }
    r := [];
    var i := 0;
    while i < |units|
      invariant 0 <= i && r == units[..if i < |units| then i else |units|]
    {
      var next := i + MAX_ARGUMENTS_LENGTH;
      r := r + units[i..if next < |units| then next else |units|];
      i := next;
    }
  }

  lemma Regrouped(a: seq<int>, b: seq<int>, c: seq<int>)
    ensures a + (b + c) == (a + b) + c
  {
  }

  /** `N` */
  method Decode(t: seq<int>, start: nat, end: nat) returns (r: seq<int>)
    requires Bytes(t)
    ensures r == Decoded(t[..if end < |t| then end else |t|], start)
  {
    var b := t[..if end < |t| then end else |t|];
    hide Decoded, DecodeAt, Encoded, UnitsOf, SequenceLength;
    r := [];
    var i := start;
    while i < |b|
      invariant i >= start && r + Decoded(b, i) == Decoded(b, start)
      decreases |b| - i
    {
      DecodedStep(b, i);
      var f := DecodeAt(b, i);
      var units := if f.None? then [REPLACEMENT] else UnitsOf(f.value);
      var next := if f.None? then i + 1 else i + SequenceLength(b[i]);
      Regrouped(r, units, Decoded(b, next));
      r, i := r + units, next;
    }
    DecodedEnd(b, i);
    r := DecodeCodePointsArray(r);
  }

  lemma {:induction false} EncodedBytes(cs: seq<int>)
    requires Scalars(cs)
    ensures Bytes(EncodedAll(cs))
  {
    if cs != [] { EncodedBytes(cs[1..]); }
  }

  /** Decoding undoes encoding. */
  lemma {:induction false} RoundTrip(pre: seq<int>, cs: seq<int>)
    requires Bytes(pre) && Scalars(cs)
    ensures Bytes(pre + EncodedAll(cs)) && Decoded(pre + EncodedAll(cs), |pre|) == UnitsAll(cs)
    decreases |cs|
  {
    hide Decoded, Encoded, UnitsOf, EncodedAll, UnitsAll, Bytes;
    EncodedBytes(cs);
    BytesJoin(pre, EncodedAll(cs));
    if cs == [] {
      EncodedNone(cs);
      DecodedEnd(pre + EncodedAll(cs), |pre|);
    } else {
      EncodedFirst(pre, cs);
      DecodesReference(pre + EncodedAll(cs), |pre|);
      RoundTrip(pre + Encoded(cs[0]), cs[1..]);
    }
  }

  lemma EncodedNone(cs: seq<int>)
    requires cs == []
    ensures EncodedAll(cs) == [] && UnitsAll(cs) == []
  {
  }

  lemma EncodedFirst(pre: seq<int>, cs: seq<int>)
    requires Bytes(pre) && Scalars(cs) && cs != []
    ensures var b := pre + EncodedAll(cs);
      && |pre| < |b| && StartsWith(b, |pre|, cs[0]) && b == (pre + Encoded(cs[0])) + EncodedAll(cs[1..])
      && Bytes(pre + Encoded(cs[0])) && UnitsAll(cs) == UnitsOf(cs[0]) + UnitsAll(cs[1..])
  {
    hide Encoded, UnitsOf;
    var b, c, rest := pre + EncodedAll(cs), cs[0], EncodedAll(cs[1..]);
    assert b == (pre + Encoded(c)) + rest;
    assert b[|pre|..|pre| + |Encoded(c)|] == Encoded(c);
  }

  // ---- Encoding ---------------------------------------------------------------------------------------------------

  /** The characters of a string, a replacement for each lone surrogate. */
  function CodePoints(t: seq<int>): seq<int> {
    if t == [] then []
    else if High(t[0]) && |t| > 1 && Low(t[1]) then
      [0x10000 + (t[0] - 0xD800) * 0x400 + (t[1] - 0xDC00)] + CodePoints(t[2..])
    else [if High(t[0]) || Low(t[0]) then REPLACEMENT else t[0]] + CodePoints(t[1..])
  }

  lemma {:induction false} CodePointsScalar(t: seq<int>)
    requires forall i | 0 <= i < |t| :: Unit(t[i])
    ensures Scalars(CodePoints(t))
  {
    if t == [] {
    } else if High(t[0]) && |t| > 1 && Low(t[1]) {
      CodePointsScalar(t[2..]);
    } else {
      assert Unit(t[0]);
      CodePointsScalar(t[1..]);
    }
  }

  /** A well-formed string is its characters. */
  lemma {:induction false} CodePointsOfUnits(cs: seq<int>)
    requires Scalars(cs)
    ensures CodePoints(UnitsAll(cs)) == cs
  {
    if cs != [] {
      var c, rest := cs[0], UnitsAll(cs[1..]);
      var t := UnitsOf(c) + rest;
      CodePointsOfUnits(cs[1..]);
      if c < 0x10000 {
        assert t[0] == c && t[1..] == rest;
      } else {
        assert t[0] == 0xD800 + (c - 0x10000) / 0x400 && t[1] == 0xDC00 + (c - 0x10000) % 0x400 && t[2..] == rest;
        assert High(t[0]) && Low(t[1]);
      }
    }
  }

  /** The limit after n octets; None is no limit. */
  function Spent(e: Option<int>, n: nat): Option<int> {
    if e.None? then None else Some(e.value - n)
  }

  predicate Within(e: Option<int>) {
    e.None? || e.value >= 0
  }

  /** The first characters, as long as their octets stay within the limit. */
  function Fitting(cs: seq<int>, e: Option<int>): (r: seq<int>)
    requires Scalars(cs)
    ensures r <= cs
  {
    if cs == [] || !Within(Spent(e, |Encoded(cs[0])|)) then []
    else [cs[0]] + Fitting(cs[1..], Spent(e, |Encoded(cs[0])|))
  }

  /** They are the longest prefix whose octets are within the limit. */
  lemma {:induction false} FittingLongest(cs: seq<int>, e: Option<int>, j: nat)
    requires Scalars(cs) && Within(e) && j <= |cs|
    ensures Within(Spent(e, |EncodedAll(cs[..j])|)) <==> j <= |Fitting(cs, e)|
  {
    if j > 0 {
      assert cs[..j][1..] == cs[1..][..j - 1];
      var after := Spent(e, |Encoded(cs[0])|);
      if Within(after) { FittingLongest(cs[1..], after, j - 1); }
    }
  }

  lemma {:induction false} EncodedJoin(a: seq<int>, b: seq<int>)
    requires Scalars(a) && Scalars(b)
    ensures EncodedAll(a + b) == EncodedAll(a) + EncodedAll(b)
  {
    if a == [] {
      assert a + b == b;
    } else {
      assert (a + b)[1..] == a[1..] + b;
      EncodedJoin(a[1..], b);
    }
  }

  /** What fits in front decides what is tried behind. */
  lemma {:induction false} FittingJoin(a: seq<int>, b: seq<int>, e: Option<int>)
    requires Scalars(a) && Scalars(b) && Within(e)
    ensures Fitting(a + b, e) ==
      if Within(Spent(e, |EncodedAll(a)|)) then a + Fitting(b, Spent(e, |EncodedAll(a)|)) else Fitting(a, e)
  {
    if a == [] {
      assert a + b == b;
    } else {
      assert (a + b)[1..] == a[1..] + b;
      var after := Spent(e, |Encoded(a[0])|);
      if Within(after) { FittingJoin(a[1..], b, after); }
    }
  }

  /** Where the encoder leaves the last character out: it ends in a second high surrogate in a row. */
  predicate EndsInTwoHighs(t: seq<int>) {
    |t| >= 2 && High(t[|t| - 1]) && High(t[|t| - 2])
  }

  function Emitted(t: seq<int>): seq<int> {
    var cs := CodePoints(t);
    if EndsInTwoHighs(t) && cs != [] then cs[..|cs| - 1] else cs
  }

  /** One more character: it is encoded if its octets are within the limit, and otherwise none is from there on. */
  lemma OneMore(done: seq<int>, c: int, e: Option<int>)
    requires Scalars(done) && Scalar(c) && Within(e)
    ensures EncodedAll(done + [c]) == EncodedAll(done) + Encoded(c)
    ensures Fitting(done + [c], e) ==
      if Within(Spent(e, |EncodedAll(done + [c])|)) then done + [c] else Fitting(done, e)
    ensures Within(Spent(e, |EncodedAll(done)|)) ==> Fitting(done, e) == done
  {
    hide Encoded, UnitsOf;
    EncodedJoin(done, [c]);
    assert [c][1..] == [] && EncodedAll([c]) == Encoded(c) + EncodedAll([]);
    assert Fitting([c], Spent(e, |EncodedAll(done)|)) ==
      if Within(Spent(Spent(e, |EncodedAll(done)|), |Encoded(c)|)) then [c] else [];
    hide EncodedAll, Fitting;
    FittingJoin(done, [c], e);
    FittingJoin(done, [], e);
    assert done + [] == done;
  }

  /** A high surrogate before place u that has not been dealt with. */
  predicate LeadAt(t: seq<int>, u: nat) {
    0 < u <= |t| && High(t[u - 1]) && (u < |t| || (u >= 2 && High(t[u - 2])))
  }

  lemma FirstPoint(t: seq<int>, i: nat)
    requires i < |t|
    ensures High(t[i]) && i + 1 < |t| && Low(t[i + 1]) ==>
      CodePoints(t[i..]) == [0x10000 + (t[i] - 0xD800) * 0x400 + (t[i + 1] - 0xDC00)] + CodePoints(t[i + 2..])
    ensures !(High(t[i]) && i + 1 < |t| && Low(t[i + 1])) ==>
      CodePoints(t[i..]) == [if High(t[i]) || Low(t[i]) then REPLACEMENT else t[i]] + CodePoints(t[i + 1..])
  {
  }

  /** The encoder stops at a character beyond the limit. */
  lemma Stopped(t: seq<int>, done: seq<int>, u: nat, e: Option<int>, o: seq<int>, all: Option<int>)
    requires u < |t| && !High(t[u]) && Scalars(CodePoints(t)) && Scanned(t, u + 1, done)
    requires Written(done, e, o, all) && !Within(e)
    ensures Scalars(Emitted(t)) && o == EncodedAll(Fitting(Emitted(t), all))
  {
    hide EncodedAll, Fitting, CodePoints;
    var rest := CodePoints(t[u + 1..]);
    assert Scalars(rest) by {
      forall i | 0 <= i < |rest| ensures Scalar(rest[i]) { assert rest[i] == CodePoints(t)[|done| + i]; }
    }
    if EndsInTwoHighs(t) {
      FirstPoint(t, u + 1);
      assert Emitted(t) == done + rest[..|rest| - 1];
      FittingJoin(done, rest[..|rest| - 1], all);
    } else {
      FittingJoin(done, rest, all);
    }
  }

  /** The characters before place `at` are done. */
  ghost predicate Scanned(t: seq<int>, at: nat, done: seq<int>) {
    at <= |t| && Scalars(done) && CodePoints(t) == done + CodePoints(t[at..])
  }

  /** The octets of what is done, as far as they are within the limit `all`, of which e is left. */
  ghost predicate Written(done: seq<int>, e: Option<int>, o: seq<int>, all: Option<int>) {
    Scalars(done) && Within(all) && e == Spent(all, |EncodedAll(done)|) && o == EncodedAll(Fitting(done, all))
  }

  lemma ScannedOne(t: seq<int>, at: nat, done: seq<int>, c: int)
    requires Scanned(t, at, done) && at < |t| && !(High(t[at]) && at + 1 < |t| && Low(t[at + 1])) && Unit(t[at])
    requires c == if High(t[at]) || Low(t[at]) then REPLACEMENT else t[at]
    ensures Scanned(t, at + 1, done + [c])
  {
    FirstPoint(t, at);
  }

  lemma ScannedPair(t: seq<int>, at: nat, done: seq<int>, c: int)
    requires Scanned(t, at, done) && at + 1 < |t| && High(t[at]) && Low(t[at + 1])
    requires c == 0x10000 + (t[at] - 0xD800) * 0x400 + (t[at + 1] - 0xDC00)
    ensures Scanned(t, at + 2, done + [c]) && Scalar(c)
  {
  }

  lemma ScannedNone(t: seq<int>)
    ensures Scanned(t, 0, []) && forall all | Within(all) :: Written([], all, [], all)
  {
  }

  /** `Q`. A limit of 0 counts as none. */
  method Encode(t: seq<int>, limit: nat) returns (o: seq<int>)
    requires forall i | 0 <= i < |t| :: Unit(t[i])
    ensures Scalars(Emitted(t)) && o == EncodedAll(Fitting(Emitted(t), if limit == 0 then None else Some(limit)))
  {
    hide Scanned, Written, Fitting, EncodedAll, Encoded, CodePoints, Emitted, Scalars;
    CodePointsScalar(t);
    ScannedNone(t);
    ghost var all := if limit == 0 then None else Some(limit);
    ghost var done: seq<int> := [];
    var e: Option<int> := if limit == 0 then None else Some(limit);
    var lead: Option<int> := None;
    o := [];
    var u := 0;
    while u < |t|
      invariant u <= |t| && Written(done, e, o, all)
      invariant (lead.Some? <==> LeadAt(t, u)) && (lead.Some? ==> lead.value == t[u - 1])
      invariant Scanned(t, if LeadAt(t, u) then u - 1 else u, done)
    {
      var n := t[u];
      if High(n) || Low(n) {
        if lead.None? {
          if Low(n) || u + 1 == |t| {
            ScannedOne(t, u, done, REPLACEMENT);
            e, o := Replace(e, o, done, all);
            done := done + [REPLACEMENT];
          } else {
            lead := Some(n);
          }
          u := u + 1;
          continue;
        }
        if High(n) {
          ScannedOne(t, u - 1, done, REPLACEMENT);
          e, o := Replace(e, o, done, all);
          done := done + [REPLACEMENT];
          lead := Some(n);
          u := u + 1;
          continue;
        }
        n := 0x10000 + (lead.value - 0xD800) * 0x400 + (n - 0xDC00);
        ScannedPair(t, u - 1, done, n);
      } else {
        if lead.Some? {
          ScannedOne(t, u - 1, done, REPLACEMENT);
          e, o := Replace(e, o, done, all);
          done := done + [REPLACEMENT];
        }
        ScannedOne(t, u, done, n);
      }
      lead := None;
      var fits;
      e, o, fits := Append(e, o, n, done, all);
      done := done + [n];
      if !fits {
        Stopped(t, done, u, e, o, all);
        return;
      }
      u := u + 1;
    }
    Ended(t, done, e, o, all);
  }

  /** The octets of a character, if they are within the limit. */
  method Append(e: Option<int>, o: seq<int>, n: int, ghost done: seq<int>, ghost all: Option<int>)
    returns (e': Option<int>, o': seq<int>, fits: bool)
    requires Scalar(n) && Written(done, e, o, all)
    ensures Written(done + [n], e', o', all) && fits == Within(e')
  {
    OneMore(done, n, all);
    hide Encoded, EncodedAll, Fitting;
    var bytes := EncodeOne(n);
    e' := Spent(e, |bytes|);
    fits := Within(e');
    o' := if fits then o + bytes else o;
  }

  /** At the end a lead that is left over is a second high surrogate in a row, and is lost. */
  lemma Ended(t: seq<int>, done: seq<int>, e: Option<int>, o: seq<int>, all: Option<int>)
    requires Scanned(t, if LeadAt(t, |t|) then |t| - 1 else |t|, done) && Written(done, e, o, all)
    ensures Scalars(Emitted(t)) && o == EncodedAll(Fitting(Emitted(t), all))
  {
    if LeadAt(t, |t|) { FirstPoint(t, |t| - 1); }
    assert Emitted(t) == done;
  }

  /** The replacement for a lone surrogate, if it is within the limit. */
  method Replace(e: Option<int>, o: seq<int>, ghost done: seq<int>, ghost all: Option<int>)
    returns (e': Option<int>, o': seq<int>)
    requires Written(done, e, o, all)
    ensures Written(done + [REPLACEMENT], e', o', all)
  {
    OneMore(done, REPLACEMENT, all);
    assert Encoded(REPLACEMENT) == [239, 191, 189];
    hide Encoded, EncodedAll, Fitting;
    e' := Spent(e, 3);
    o' := if Within(e') then o + [239, 191, 189] else o;
  }

  /** The four cases of `Q`. */
  method EncodeOne(n: int) returns (bytes: seq<int>)
    requires Scalar(n)
    ensures bytes == Encoded(n)
  {
    if n < 128 {
      bytes := [n];
    } else if n < 2048 {
      bytes := [n / 0x40 + 192, n % 0x40 + 128];
    } else if n < 65536 {
      bytes := [n / 0x1000 + 224, n / 0x40 % 0x40 + 128, n % 0x40 + 128];
    } else {
      bytes := [n / 0x40000 + 240, n / 0x1000 % 0x40 + 128, n / 0x40 % 0x40 + 128, n % 0x40 + 128];
    }
  }

  /** Without a limit the encoder gives the octets of the whole string, a replacement for each lone surrogate, except
      that a string that ends in two high surrogates in a row loses the last replacement. */
  lemma EncodesAllButLast(t: seq<int>)
    requires Units(t)
    ensures Scalars(CodePoints(t)) && Scalars(Emitted(t)) && Fitting(Emitted(t), None) == Emitted(t)
    ensures EncodedAll(Fitting(Emitted(t), None)) == EncodedAll(CodePoints(t)) <==> !EndsInTwoHighs(t)
  {
    CodePointsScalar(t);
    var cs := CodePoints(t);
    NoLimit(Emitted(t));
    if EndsInTwoHighs(t) {
      assert cs != [];
      assert cs == cs[..|cs| - 1] + [cs[|cs| - 1]];
      EncodedJoin(cs[..|cs| - 1], [cs[|cs| - 1]]);
    }
  }

  lemma {:induction false} NoLimit(cs: seq<int>)
    requires Scalars(cs)
    ensures Fitting(cs, None) == cs
  {
    if cs != [] { NoLimit(cs[1..]); }
  }

  /** Two high surrogates give one replacement. */
  lemma TwoHighsLoseOne()
    ensures CodePoints([0xD800, 0xD800]) == [REPLACEMENT, REPLACEMENT] && Emitted([0xD800, 0xD800]) == [REPLACEMENT]
  {
  }

  /** Every well-formed string comes back. */
  lemma StringRoundTrip(cs: seq<int>)
    requires Scalars(cs)
    ensures var t := UnitsAll(cs);
      Scalars(Emitted(t)) && Bytes(EncodedAll(Fitting(Emitted(t), None)))
        && Decoded(EncodedAll(Fitting(Emitted(t), None)), 0) == t
  {
    var t := UnitsAll(cs);
    CodePointsOfUnits(cs);
    WellFormedEnd(cs);
    NoLimit(cs);
    RoundTrip([], cs);
    assert [] + EncodedAll(cs) == EncodedAll(cs);
  }

  /** A well-formed string does not end in a high surrogate. */
  lemma {:induction false} WellFormedEnd(cs: seq<int>)
    requires Scalars(cs)
    ensures var t := UnitsAll(cs); t != [] ==> !High(t[|t| - 1])
  {
    if cs != [] {
      WellFormedEnd(cs[1..]);
      var rest := UnitsAll(cs[1..]);
      var t := UnitsOf(cs[0]) + rest;
      if rest == [] { assert t == UnitsOf(cs[0]); } else { assert t[|t| - 1] == rest[|rest| - 1]; }
    }
  }

  /** `B` */
  method CopyInto(src: seq<int>, buffer: array<int>, offset: nat, length: nat) returns (i: nat)
    requires offset <= buffer.Length
    modifies buffer
    ensures i <= |src| && i <= length && offset + i <= buffer.Length
    ensures i == length || i == |src| || offset + i == buffer.Length
    ensures buffer[..] == old(buffer[..offset]) + src[..i] + old(buffer[offset + i..])
  {
    i := 0;
    while i < length && !(i + offset >= buffer.Length || i >= |src|)
      invariant i <= length && i <= |src| && offset + i <= buffer.Length
      invariant buffer[..] == old(buffer[..offset]) + src[..i] + old(buffer[offset + i..])
    {
      buffer[i + offset] := src[i];
      i := i + 1;
    }
  }

  /** `write` for UTF-8: `Q` with the room left in the buffer as its limit, then the copy `B` of at most `length`
      octets. */
  method WriteString(buffer: array<int>, t: seq<int>, offset: nat, length: nat) returns (i: nat)
    requires Units(t) && offset + length <= buffer.Length
    modifies buffer
    ensures var limit := if offset == buffer.Length then None else Some(buffer.Length - offset);
      && Scalars(Emitted(t))
      && var octets := EncodedAll(Fitting(Emitted(t), limit));
      && i == (if length < |octets| then length else |octets|)
      && buffer[..] == old(buffer[..offset]) + octets[..i] + old(buffer[offset + i..])
  {
    hide Emitted, Fitting, EncodedAll, Scalars;
    var octets := Encode(t, buffer.Length - offset);
    i := CopyInto(octets, buffer, offset, length);
  }

  /** Some character of the string ends exactly n octets after its start. */
  ghost predicate CharacterEndsAt(cs: seq<int>, n: nat)
    requires Scalars(cs)
  {
    exists j :: 0 <= j <= |cs| && |EncodedAll(cs[..j])| == n
  }

  /** What is written is the encoding of the longest whole-character prefix that fits in length octets exactly when all
      that the room allows fits in them too, or a character ends there: always when length is the room, but not for
      every shorter length. */
  lemma WritesWholeCharacters(cs: seq<int>, room: nat, length: nat)
    requires Scalars(cs) && length <= room
    ensures var octets := EncodedAll(Fitting(cs, Some(room)));
      var i := if length < |octets| then length else |octets|;
      var whole := EncodedAll(Fitting(cs, Some(length)));
      && whole <= octets
      && (octets[..i] == whole <==> |octets| <= length || CharacterEndsAt(cs, length))
      && (length == room ==> octets[..i] == whole)
  {
    hide Fitting, EncodedAll, Encoded;
    FittingWithin(cs, Some(length));
    FittingWithin(cs, Some(room));
    FittingNested(cs, room, length);
    var short, long := Fitting(cs, Some(length)), Fitting(cs, Some(room));
    assert long == short + long[|short|..];
    EncodedJoin(short, long[|short|..]);
    assert cs[..|short|] == short && cs[..|long|] == long;
    if |EncodedAll(long)| <= length { FittingLongest(cs, Some(length), |long|); }
    if CharacterEndsAt(cs, length) { EndsWithin(cs, length); }
  }

  lemma EndsWithin(cs: seq<int>, n: nat)
    requires Scalars(cs) && CharacterEndsAt(cs, n)
    ensures |EncodedAll(Fitting(cs, Some(n)))| == n
  {
    var j :| 0 <= j <= |cs| && |EncodedAll(cs[..j])| == n;
    var short := Fitting(cs, Some(n));
    FittingLongest(cs, Some(n), j);
    FittingWithin(cs, Some(n));
    assert short == cs[..j] + short[j..];
    EncodedJoin(cs[..j], short[j..]);
  }

  lemma FittingWithin(cs: seq<int>, e: Option<int>)
    requires Scalars(cs) && Within(e)
    ensures Within(Spent(e, |EncodedAll(Fitting(cs, e))|))
  {
  }

  lemma {:induction false} FittingNested(cs: seq<int>, room: int, length: int)
    requires Scalars(cs) && length <= room
    ensures Fitting(cs, Some(length)) <= Fitting(cs, Some(room))
  {
    hide Encoded;
    if cs != [] {
      var n := |Encoded(cs[0])|;
      FittingNested(cs[1..], room - n, length - n);
      if length >= n {
        var short, long := Fitting(cs[1..], Some(length - n)), Fitting(cs[1..], Some(room - n));
        assert [cs[0]] + short <= [cs[0]] + long;
      }
    }
  }

  /** One octet of a character of two: what a length below the room may leave. */
  lemma CutsCharacter()
    ensures EncodedAll(Fitting([0xE9], Some(2))) == [0xC3, 0xA9] && EncodedAll(Fitting([0xE9], Some(1))) == []
    ensures !CharacterEndsAt([0xE9], 1)
  {
  }
}
