/** The streaming decoders of StringDecoder, for input that is cut anywhere. */
module StringDecoder {
  import opened Options
  import opened Sequences
  import Utf8
  import Base64

  // ---- Characters that are cut ------------------------------------------------------------------------------------

  /** `utf8CheckByte`: how long a sequence the octet starts, 0 for ASCII, -1 for a continuation, -2 for none of
      these. */
  function CheckByte(b: int): int {
    if b <= 127 then 0
    else if b / 32 == 6 then 2
    else if b / 16 == 14 then 3
    else if b / 8 == 30 then 4
    else if b / 64 == 2 then -1
    else -2
  }

  ghost predicate Continue(s: seq<int>) {
    forall i | 0 <= i < |s| :: Utf8.Continuation(s[i])
  }

  /** The octets q begin a character of more octets. */
  ghost predicate Begins(q: seq<int>) {
    0 < |q| < CheckByte(q[0]) && Continue(q[1..])
  }

  /** How many octets at the end of w begin a character of more. */
  ghost function Pending(w: seq<int>): (p: nat)
    ensures p <= |w| && (p > 0 ==> Begins(w[|w| - p..]))
    ensures p == 0 ==> forall j | 0 <= j < |w| :: !Begins(w[j..])
  {
    if |w| >= 1 && Begins(w[|w| - 1..]) then 1
    else if |w| >= 2 && Begins(w[|w| - 2..]) then 2
    else if |w| >= 3 && Begins(w[|w| - 3..]) then 3
    else 0
  }

  /** What is not pending, and what is. */
  ghost function Settled(w: seq<int>): seq<int> {
    w[..|w| - Pending(w)]
  }

  ghost function Behind(w: seq<int>): seq<int> {
    w[|w| - Pending(w)..]
  }

  lemma SuffixOf(a: seq<int>, b: seq<int>, k: nat)
    requires k <= |a + b|
    ensures k <= |b| ==> (a + b)[|a + b| - k..] == b[|b| - k..]
    ensures k > |b| ==> (a + b)[|a + b| - k..] == a[|a| - (k - |b|)..] + b
  {
  }

  lemma BeginsShort(q: seq<int>)
    ensures Begins(q) ==> |q| <= 3 && !Utf8.Continuation(q[0])
    ensures Begins(q) ==> forall i | 0 < i < |q| :: Utf8.Continuation(q[i]) && CheckByte(q[i]) == -1
  {
    if Begins(q) {
      forall i | 0 < i < |q| ensures Utf8.Continuation(q[i]) { assert q[1..][i - 1] == q[i]; }
    }
  }

  /** There is one way to be pending. */
  lemma PendingIs(w: seq<int>, j: nat)
    requires j < |w| && Begins(w[j..])
    ensures Pending(w) == |w| - j
  {
    var p := Pending(w);
    BeginsShort(w[j..]);
    BeginsShort(w[|w| - p..]);
  }

  /** A prefix of octets that begin a character begins it. */
  lemma BeginsPrefix(a: seq<int>, b: seq<int>)
    requires a != [] && Begins(a + b)
    ensures Begins(a) && (b != [] ==> Utf8.Continuation(b[0]))
  {
    BeginsShort(a + b);
    forall i | 0 <= i < |a| - 1 ensures Utf8.Continuation(a[1..][i]) { assert (a + b)[i + 1] == a[1..][i]; }
    if b != [] { assert (a + b)[|a|] == b[0]; }
  }

  /** What is pending does not depend on what comes before a place where nothing is, or where no character goes on. */
  lemma PendingTail(a: seq<int>, b: seq<int>)
    requires Pending(a) == 0 || (b != [] && !Utf8.Continuation(b[0]))
    ensures Pending(a + b) == Pending(b) && Settled(a + b) == a + Settled(b) && Behind(a + b) == Behind(b)
  {
    hide Begins, Utf8.Continuation, Pending;
    var p := Pending(b);
    SuffixOf(a, b, p);
    if p > 0 { PendingIs(a + b, |a + b| - p); } else { NonePending(a, b); }
    assert (a + b)[..|a + b| - p] == a + b[..|b| - p];
  }

  lemma NonePending(a: seq<int>, b: seq<int>)
    requires Pending(b) == 0 && (Pending(a) == 0 || (b != [] && !Utf8.Continuation(b[0])))
    ensures Pending(a + b) == 0
  {
    hide Begins, Utf8.Continuation, Pending;
    var k := Pending(a + b);
    if k > 0 {
      SuffixOf(a, b, k);
      if k > |b| { BeginsPrefix(a[|a| - (k - |b|)..], b); }
    }
  }

  /** Decoding from the start of a part on. */
  lemma {:induction false} DecodedShift(pre: seq<int>, b: seq<int>, j: nat)
    requires Bytes(pre) && Bytes(b) && j <= |b|
    ensures Bytes(pre + b) && Utf8.Decoded(pre + b, |pre| + j) == Utf8.Decoded(b, j)
    decreases |b| - j
  {
    hide Utf8.Decoded, Utf8.DecodeAt, Utf8.UnitsOf, Utf8.SequenceLength;
    BytesJoin(pre, b);
    if j == |b| {
      Utf8.DecodedEnd(b, j);
      Utf8.DecodedEnd(pre + b, |pre| + j);
    } else {
      Utf8.DecodedStep(b, j);
      Utf8.DecodedStep(pre + b, |pre| + j);
      DecodeShift(pre, b, j);
      hide Bytes;
      if Utf8.DecodeAt(b, j).Some? {
        DecodeInside(b, j);
        DecodedShift(pre, b, j + Utf8.SequenceLength(b[j]));
      } else {
        DecodedShift(pre, b, j + 1);
      }
    }
  }

  lemma DecodeShift(pre: seq<int>, b: seq<int>, j: nat)
    requires j < |b|
    ensures (pre + b)[|pre| + j] == b[j] && Utf8.DecodeAt(pre + b, |pre| + j) == Utf8.DecodeAt(b, j)
  {
  }

  lemma DecodeInside(b: seq<int>, i: nat)
    requires i < |b| && Utf8.DecodeAt(b, i).Some?
    ensures i + Utf8.SequenceLength(b[i]) <= |b|
  {
  }

  /** A character that goes on behind a is pending at the end of a, and goes on with a continuation. */
  lemma DecodeSame(a: seq<int>, b: seq<int>, i: nat)
    requires Bytes(a) && Bytes(b) && i < |a| && (Pending(a) == 0 || b == [] || !Utf8.Continuation(b[0]))
    ensures Utf8.DecodeAt(a + b, i) == Utf8.DecodeAt(a, i) && (a + b)[i] == a[i]
  {
    var l := Utf8.SequenceLength(a[i]);
    assert Byte(a[i]);
    if i + l > |a| && Utf8.DecodeAt(a + b, i).Some? {
      var q := a[i..];
      LeadOf(a + b, i);
      forall k | 0 <= k < |q| - 1 ensures Utf8.Continuation(q[1..][k]) { assert q[1..][k] == (a + b)[i + 1 + k]; }
      assert Begins(q);
    }
  }

  lemma LeadOf(b: seq<int>, i: nat)
    requires i < |b| && Byte(b[i]) && Utf8.DecodeAt(b, i).Some? && Utf8.SequenceLength(b[i]) > 1
    ensures CheckByte(b[i]) == Utf8.SequenceLength(b[i]) && i + Utf8.SequenceLength(b[i]) <= |b|
    ensures forall k | i < k < i + Utf8.SequenceLength(b[i]) :: Utf8.Continuation(b[k])
  {
  }

  /** Two parts are decoded one after the other, if no character is pending between them or goes on. */
  lemma {:induction false} DecodedSplit(a: seq<int>, b: seq<int>, i: nat)
    requires Bytes(a) && Bytes(b) && i <= |a| && (Pending(a) == 0 || b == [] || !Utf8.Continuation(b[0]))
    ensures Bytes(a + b) && Utf8.Decoded(a + b, i) == Utf8.Decoded(a, i) + Utf8.Decoded(b, 0)
    decreases |a| - i
  {
    hide Utf8.DecodeAt, Utf8.UnitsOf, Utf8.SequenceLength, Pending, Utf8.Continuation;
    BytesJoin(a, b);
    if i == |a| {
      DecodedShift(a, b, 0);
    } else {
      Utf8.DecodedStep(a, i);
      Utf8.DecodedStep(a + b, i);
      DecodeSame(a, b, i);
      hide Utf8.Decoded, Bytes;
      if Utf8.DecodeAt(a, i).Some? {
        DecodeInside(a, i);
        DecodedSplit(a, b, i + Utf8.SequenceLength(a[i]));
      } else {
        DecodedSplit(a, b, i + 1);
      }
    }
  }

  function Replacements(n: nat): (r: seq<int>)
    ensures |r| == n
  {
    seq(n, _ => Utf8.REPLACEMENT)
  }

  lemma {:induction false} ContinuationsReplaced(q: seq<int>, i: nat)
    requires Bytes(q) && i <= |q| && forall j | i <= j < |q| :: Utf8.Continuation(q[j])
    ensures Utf8.Decoded(q, i) == Replacements(|q| - i)
    decreases |q| - i
  {
    if i < |q| {
      ContinuationsReplaced(q, i + 1);
      assert Utf8.Continuation(q[i]);
    }
  }

  /** A character that is not complete is decoded as a replacement for each octet. */
  lemma BegunReplaced(q: seq<int>)
    requires Bytes(q) && Begins(q)
    ensures Utf8.Decoded(q, 0) == Replacements(|q|)
  {
    BeginsShort(q);
    ContinuationsReplaced(q, 1);
    LongerLead(q[0]);
    Utf8.DecodedStep(q, 0);
    hide Utf8.Decoded;
  }

  lemma LongerLead(b: int)
    requires CheckByte(b) > 0
    ensures Utf8.SequenceLength(b) == CheckByte(b)
  {
  }

  // ---- What a decoder is to give out ------------------------------------------------------------------------------

  /** How many octets at the front of t are continuations, of m at most. */
  function Run(t: seq<int>, m: nat): (n: nat)
    ensures n <= m && n <= |t| && forall i | 0 <= i < n :: Utf8.Continuation(t[i])
    ensures n < m && n < |t| ==> !Utf8.Continuation(t[n])
  {
    if m == 0 || t == [] || !Utf8.Continuation(t[0]) then 0 else 1 + Run(t[1..], m - 1)
  }

  /** How many octets the character that pend begins needs. */
  function Need(pend: seq<int>): int {
    if pend == [] then 0 else CheckByte(pend[0]) - |pend|
  }

  ghost predicate Waits(pend: seq<int>) {
    Bytes(pend) && (pend == [] || Begins(pend))
  }

  /** The character that pend begins is broken off in t. */
  ghost predicate Breaks(pend: seq<int>, t: seq<int>)
    requires Waits(pend)
  {
    pend != [] && Run(t, Need(pend)) < Need(pend) && Run(t, Need(pend)) < |t|
  }

  /** What is given out for t, when pend waits: a character that is broken off gives one replacement. */
  ghost function Shown(pend: seq<int>, t: seq<int>): seq<int>
    requires Waits(pend) && Bytes(t)
  {
    if Breaks(pend, t) then [Utf8.REPLACEMENT] + Utf8.Decoded(Settled(t[Run(t, Need(pend))..]), 0)
    else
      BytesJoin(pend, t);
      Utf8.Decoded(Settled(pend + t), 0)
  }

  /** How many replacements fewer than when decoding at once: all but one of the octets of a broken character. */
  ghost function Lost(pend: seq<int>, t: seq<int>): nat
    requires Waits(pend)
  {
    if Breaks(pend, t) then |pend| + Run(t, Need(pend)) - 1 else 0
  }

  lemma BehindWaits(w: seq<int>)
    requires Bytes(w)
    ensures Waits(Behind(w)) && Bytes(Settled(w)) && w == Settled(w) + Behind(w)
  {
  }

  /** What the octets of a chunk are decoded to, against what is given out for it. */
  lemma ShownLost(pend: seq<int>, t: seq<int>)
    requires Waits(pend) && Bytes(t)
    ensures Bytes(Settled(pend + t))
    ensures Utf8.Decoded(Settled(pend + t), 0) == Replacements(Lost(pend, t)) + Shown(pend, t)
  {
    hide Begins, Utf8.Decoded, Utf8.Continuation, Run, CheckByte, Pending, Settled;
    BytesJoin(pend, t);
    BehindWaits(pend + t);
    if Breaks(pend, t) {
      var n := Run(t, Need(pend));
      var a, b := pend + t[..n], t[n..];
      BrokenBegins(pend, t);
      assert pend + t == a + b;
      BytesJoin(pend, t[..n]);
      BehindWaits(b);
      PendingTail(a, b);
      SettledFront(b);
      DecodedSplit(a, Settled(b), 0);
      BegunReplaced(a);
      MoreReplacements(|a| - 1);
    } else {
      assert Replacements(0) == [];
    }
  }

  lemma MoreReplacements(n: nat)
    ensures Replacements(n + 1) == Replacements(n) + [Utf8.REPLACEMENT]
  {
  }

  lemma SettledFront(b: seq<int>)
    ensures Settled(b) != [] ==> b != [] && Settled(b)[0] == b[0]
  {
  }

  /** The octets of a broken character begin one. */
  lemma BrokenBegins(pend: seq<int>, t: seq<int>)
    requires Waits(pend) && Breaks(pend, t)
    ensures var n := Run(t, Need(pend)); Begins(pend + t[..n]) && n < |t| && !Utf8.Continuation(t[n])
  {
    var n := Run(t, Need(pend));
    BeginsOn(pend, t[..n]);
  }

  lemma BeginsOn(pend: seq<int>, s: seq<int>)
    requires Begins(pend) && |pend| + |s| < CheckByte(pend[0]) && Continue(s)
    ensures Begins(pend + s)
  {
    assert (pend + s)[1..] == pend[1..] + s;
  }

  /** Decoding on: what has been settled stays, and what was pending goes with what comes. */
  lemma SettledOn(w: seq<int>, t: seq<int>)
    requires Bytes(w) && Bytes(t)
    ensures Bytes(Settled(w)) && Bytes(Settled(w + t)) && Bytes(Settled(Behind(w) + t)) && Waits(Behind(w))
    ensures Behind(w + t) == Behind(Behind(w) + t)
    ensures Utf8.Decoded(Settled(w + t), 0) ==
      Utf8.Decoded(Settled(w), 0) + Utf8.Decoded(Settled(Behind(w) + t), 0)
  {
    hide Utf8.Decoded, Utf8.Continuation, Settled, Behind;
    BehindWaits(w);
    var a, b := Settled(w), Behind(w) + t;
    assert w + t == a + b;
    BytesJoin(Behind(w), t);
    BehindWaits(b);
    BehindBegins(w);
    FrontOf(w, t);
    hide Begins, Pending;
    PendingTail(a, b);
    SettledFront(b);
    DecodedSplit(a, Settled(b), 0);
  }

  /** Where nothing is pending, nothing is pending in what is settled; otherwise a character begins there. */
  lemma FrontOf(w: seq<int>, t: seq<int>)
    ensures Pending(Settled(w)) == 0 || (Behind(w) + t != [] && !Utf8.Continuation((Behind(w) + t)[0]))
  {
    BehindBegins(w);
    if Behind(w) == [] { assert Settled(w) == w; }
  }

  lemma BehindBegins(w: seq<int>)
    ensures Behind(w) != [] ==> Begins(Behind(w)) && !Utf8.Continuation(Behind(w)[0])
  {
  }

  // ---- Any chunks -------------------------------------------------------------------------------------------------

  /** What is given out for chunks, one after the other. */
  ghost function ShownAll(chunks: seq<seq<int>>): seq<int>
    requires Bytes(Flat(chunks))
  {
    if chunks == [] then []
    else
      var n := |chunks| - 1;
      LastBytes(chunks);
      BehindWaits(Flat(chunks[..n]));
      ShownAll(chunks[..n]) + Shown(Behind(Flat(chunks[..n])), chunks[n])
  }

  ghost function LostIn(chunks: seq<seq<int>>): nat
    requires Bytes(Flat(chunks))
  {
    if chunks == [] then 0
    else
      var n := |chunks| - 1;
      LastBytes(chunks);
      BehindWaits(Flat(chunks[..n]));
      LostIn(chunks[..n]) + Lost(Behind(Flat(chunks[..n])), chunks[n])
  }

  /** What chunks are decoded to, with one replacement for what waits at the end. */
  ghost function Streamed(chunks: seq<seq<int>>): seq<int>
    requires Bytes(Flat(chunks))
  {
    ShownAll(chunks) + if Pending(Flat(chunks)) > 0 then [Utf8.REPLACEMENT] else []
  }

  /** How many replacements are lost to cuts: for each character that is broken off behind one, and for one that waits
      at the end, all but one of its octets. */
  ghost function LostAll(chunks: seq<seq<int>>): nat
    requires Bytes(Flat(chunks))
  {
    var p := Pending(Flat(chunks));
    LostIn(chunks) + if p > 0 then p - 1 else 0
  }

  lemma LastBytes(chunks: seq<seq<int>>)
    requires Bytes(Flat(chunks)) && chunks != []
    ensures var n := |chunks| - 1;
      Flat(chunks) == Flat(chunks[..n]) + chunks[n] && Bytes(Flat(chunks[..n])) && Bytes(chunks[n])
  {
    var n := |chunks| - 1;
    var a, b := Flat(chunks[..n]), chunks[n];
    assert Flat(chunks) == a + b;
    hide Flat;
    BytesSplit(a, b);
  }

  /** What has been given out is shorter than what is settled is decoded to, by the replacements lost. */
  lemma {:induction false} ShownOf(chunks: seq<seq<int>>)
    requires Bytes(Flat(chunks))
    ensures Bytes(Settled(Flat(chunks)))
    ensures var d := Utf8.Decoded(Settled(Flat(chunks)), 0);
      && |d| == |ShownAll(chunks)| + LostIn(chunks)
      && (LostIn(chunks) == 0 ==> d == ShownAll(chunks))
  {
    hide Utf8.Decoded, Shown, Lost, Settled, Behind, Pending;
    BehindWaits(Flat(chunks));
    if chunks == [] {
      Utf8.DecodedEnd(Settled(Flat(chunks)), 0);
    } else {
      var n := |chunks| - 1;
      LastBytes(chunks);
      var w, t := Flat(chunks[..n]), chunks[n];
      ShownOf(chunks[..n]);
      hide Flat;
      SettledOn(w, t);
      ShownLost(Behind(w), t);
    }
  }

  /** Decoding in chunks gives what decoding at once gives exactly if no replacement is lost: if no character of which
      two octets or more were there is broken off behind a cut, or at the end. */
  lemma StreamedIff(chunks: seq<seq<int>>)
    requires Bytes(Flat(chunks))
    ensures |Utf8.Decoded(Flat(chunks), 0)| == |Streamed(chunks)| + LostAll(chunks)
    ensures Streamed(chunks) == Utf8.Decoded(Flat(chunks), 0) <==> LostAll(chunks) == 0
  {
    hide Utf8.Decoded, ShownAll, LostIn, Settled, Behind, Flat, Begins, Pending, Utf8.Continuation;
    var w := Flat(chunks);
    ShownOf(chunks);
    BehindWaits(w);
    BehindIs(w);
    BehindBegins(w);
    FrontOf(w, []);
    assert Behind(w) + [] == Behind(w);
    DecodedSplit(Settled(w), Behind(w), 0);
    if Behind(w) == [] {
      Utf8.DecodedEnd(Behind(w), 0);
    } else {
      BegunReplaced(Behind(w));
      if |Behind(w)| == 1 { assert Replacements(1) == [Utf8.REPLACEMENT]; }
    }
  }

  lemma BehindIs(w: seq<int>)
    ensures |Behind(w)| == Pending(w)
  {
  }

  // ---- The UTF-8 decoder ------------------------------------------------------------------------------------------

  /** `utf8CheckIncomplete`: looks back over at most three octets for a character that is not complete; its length, and
      how many octets it needs. */
  function CheckIncomplete(t: seq<int>, from: nat): (int, nat) {
    var r := |t| - 1;
    if r < from then (0, 0)
    else
      var a := CheckByte(t[r]);
      if a >= 0 then (a, if a > 0 then a - 1 else 0)
      else if r - 1 < from || a == -2 then (0, 0)
      else
        var b := CheckByte(t[r - 1]);
        if b >= 0 then (b, if b > 0 then b - 2 else 0)
        else if r - 2 < from || b == -2 then (0, 0)
        else
          var c := CheckByte(t[r - 2]);
          if c == 2 then (0, 0) else if c > 0 then (c, c - 3) else (0, 0)
  }

  /** A character that is not complete is found, and nothing else is taken for one. */
  lemma ChecksPending(t: seq<int>, from: nat)
    requires Bytes(t) && from <= |t|
    ensures var p := Pending(t[from..]); var (total, need) := CheckIncomplete(t, from);
      if p == 0 then need == 0 else total == CheckByte(t[|t| - p]) && need == total - p > 0
  {
    var q := t[from..];
    forall i | 0 <= i < |q| ensures q[i] == t[from + i] && Byte(q[i]) { assert Byte(t[from + i]); }
    if |q| >= 1 { BeginsOne(q[|q| - 1..]); }
    if |q| >= 2 { BeginsTwo(q[|q| - 2..]); }
    if |q| >= 3 { BeginsThree(q[|q| - 3..]); }
    hide Begins, Utf8.Continuation;
    if |q| >= 1 { ContinuationByte(q[|q| - 1]); }
    if |q| >= 2 { ContinuationByte(q[|q| - 2]); }
    hide CheckByte;
  }

  lemma ContinuationByte(b: int)
    ensures Utf8.Continuation(b) <==> CheckByte(b) == -1
    ensures CheckByte(b) >= -2
  {
  }

  lemma BeginsOne(q: seq<int>)
    requires |q| == 1
    ensures Begins(q) <==> CheckByte(q[0]) > 1
  {
  }

  lemma BeginsTwo(q: seq<int>)
    requires |q| == 2
    ensures Begins(q) <==> CheckByte(q[0]) > 2 && Utf8.Continuation(q[1])
  {
    if Begins(q) { BeginsShort(q); }
  }

  lemma BeginsThree(q: seq<int>)
    requires |q| == 3
    ensures Begins(q) <==> CheckByte(q[0]) > 3 && Utf8.Continuation(q[1]) && Utf8.Continuation(q[2])
  {
    if Begins(q) { BeginsShort(q); }
  }

  /** `utf8CheckExtraBytes`: what `lastNeed` becomes when one of the octets looked at is not a continuation. */
  function CheckExtraBytes(t: seq<int>, lastNeed: nat): Option<nat>
    requires t != []
  {
    if t[0] / 64 != 2 then Some(0)
    else if lastNeed > 1 && |t| > 1 then
      if t[1] / 64 != 2 then Some(1)
      else if lastNeed > 2 && |t| > 2 && t[2] / 64 != 2 then Some(2)
      else None
    else None
  }

  lemma ExtraIs(t: seq<int>, need: nat)
    requires t != [] && 1 <= need <= 3
    ensures CheckExtraBytes(t, need) == if Run(t, need) < need && Run(t, need) < |t| then Some(Run(t, need)) else None
  {
  }

  /** `copy`: the first n octets of t go to place at. */
  method Copy(t: seq<int>, target: array<int>, at: nat, n: nat)
    requires n <= |t| && at + n <= target.Length
    modifies target
    ensures target[..at] == old(target[..at]) && target[at..at + n] == t[..n]
      && target[at + n..] == old(target[at + n..])
  {
    forall i | 0 <= i < n { target[at + i] := t[i]; }
  }

  class Utf8Decoder {
    var lastNeed: nat
    var lastTotal: nat
    const lastChar: array<int>

    /** The octets pend begin a character and wait for the rest of it. */
    ghost predicate Holds(pend: seq<int>)
      reads this, lastChar
    {
      && lastChar.Length == 4 && Waits(pend) && lastNeed == Need(pend)
      && (pend != [] ==> lastTotal == CheckByte(pend[0]) && lastChar[..|pend|] == pend)
    }

    constructor ()
      ensures Holds([]) && fresh(lastChar)
    {
      lastNeed, lastTotal := 0, 0;
      lastChar := new int[4](_ => 0);
    }

    /** `text`: the octets from n on, but for those of a character that is not complete. */
    method Text(t: seq<int>, n: nat) returns (out: seq<int>)
      requires Holds([]) && Bytes(t) && n <= |t|
      modifies this, lastChar
      ensures Bytes(Settled(t[n..])) && out == Utf8.Decoded(Settled(t[n..]), 0) && Holds(Behind(t[n..]))
    {
      hide CheckIncomplete, Utf8.Decoded, CheckByte, Begins, Pending;
      ghost var q := t[n..];
      ghost var p := Pending(q);
      ChecksPending(t, n);
      SliceBytes(t, n, |t|);
      SliceBytes(t, 0, n);
      BehindWaits(q);
      assert t[..|t| - p] == t[..n] + Settled(q) && t[|t| - p..] == Behind(q);
      DecodedShift(t[..n], Settled(q), 0);
      var (total, need) := CheckIncomplete(t, n);
      lastNeed := need;
      if need == 0 {
        out := Utf8.Decode(t, n, |t|);
        assert t[..|t|] == t;
        return;
      }
      lastTotal := total;
      var r := |t| - (total - need);
      BeginsShort(Behind(q));
      Copy(t[r..], lastChar, 0, |t| - r);
      assert lastChar[..p] == t[r..];
      out := Utf8.Decode(t, n, r);
    }

    /** `fillLast`: None stands for the value undefined. */
    method FillLast(t: seq<int>) returns (r: Option<seq<int>>)
      requires t != [] && lastChar.Length == 4 && 0 < lastNeed < lastTotal <= 4
      requires Bytes(t) && Bytes(lastChar[..lastTotal - lastNeed])
      modifies this`lastNeed, lastChar
      ensures CheckExtraBytes(t, old(lastNeed)).Some? ==>
        lastNeed == CheckExtraBytes(t, old(lastNeed)).value && r == Some([Utf8.REPLACEMENT])
      ensures CheckExtraBytes(t, old(lastNeed)).None? ==>
        var have := lastTotal - old(lastNeed);
        if old(lastNeed) <= |t| then
          var octets := old(lastChar[..have]) + t[..old(lastNeed)];
          lastNeed == old(lastNeed) && Bytes(octets) && r == Some(Utf8.Decoded(octets, 0))
        else
          r == None && lastNeed == old(lastNeed) - |t| && lastChar[..have + |t|] == old(lastChar[..have]) + t
    {
      hide Utf8.Decoded;
      var extra := CheckExtraBytes(t, lastNeed);
      if extra.Some? {
        lastNeed := extra.value;
        return Some([Utf8.REPLACEMENT]);
      }
      var have := lastTotal - lastNeed;
      ghost var before := lastChar[..have];
      if lastNeed <= |t| {
        Copy(t, lastChar, have, lastNeed);
        var octets := lastChar[..lastTotal];
        assert octets == before + t[..lastNeed];
        var units := Utf8.Decode(octets, 0, lastTotal);
        assert octets[..lastTotal] == octets;
        return Some(units);
      }
      Copy(t, lastChar, have, |t|);
      assert lastChar[..have + |t|] == before + t;
      lastNeed := lastNeed - |t|;
      return None;
    }

    /** `write`, where pend waits. */
    method Write(t: seq<int>, ghost pend: seq<int>) returns (out: seq<int>)
      requires Holds(pend) && Bytes(t)
      modifies this, lastChar
      ensures out == Shown(pend, t) && Holds(Behind(pend + t))
    {
      hide Utf8.Decoded, CheckByte, Begins, CheckExtraBytes, Run, Utf8.Continuation, Settled, Behind;
      if |t| == 0 {
        NothingMore(pend);
        assert pend + t == pend;
        return [];
      }
      if lastNeed == 0 {
        NoNeed(pend);
        assert pend + t == t && t[0..] == t;
        out := Text(t, 0);
        return;
      }
      NeedSome(pend);
      ExtraIs(t, lastNeed);
      ghost var need := lastNeed;
      var e := FillLast(t);
      if e.None? {
        StillWaits(pend, t);
        return [];
      }
      var n := lastNeed;
      lastNeed := 0;
      if Run(t, need) == need {
        Completed(pend, t);
      } else {
        BrokenBehind(pend, t);
      }
      if n < |t| {
        var more := Text(t, n);
        return e.value + more;
      }
      assert t[n..] == [];
      SettledNothing();
      return e.value;
    }

    /** `end` */
    method End(t: seq<int>, ghost pend: seq<int>) returns (out: seq<int>)
      requires Holds(pend) && Bytes(t)
      modifies this, lastChar
      ensures out == Shown(pend, t) + if Pending(pend + t) > 0 then [Utf8.REPLACEMENT] else []
    {
      hide Utf8.Decoded, CheckByte, Shown, Pending;
      var e := Write(t, pend);
      NeedSome(Behind(pend + t));
      out := if lastNeed > 0 then e + [Utf8.REPLACEMENT] else e;
    }
  }

  lemma SliceBytes(t: seq<int>, i: nat, j: nat)
    requires Bytes(t) && i <= j <= |t|
    ensures Bytes(t[i..j]) && Bytes(t[i..]) && Bytes(t[..j])
  {
  }

  lemma NeedSome(pend: seq<int>)
    requires Waits(pend)
    ensures pend != [] <==> Need(pend) > 0
    ensures pend != [] ==> |pend| <= 3 && Need(pend) <= 3 && CheckByte(pend[0]) <= 4
  {
  }

  lemma NoNeed(pend: seq<int>)
    requires Waits(pend) && Need(pend) == 0
    ensures pend == []
  {
  }

  lemma SettledNothing()
    ensures Settled([]) == [] && Behind([]) == [] && Bytes([]) && Utf8.Decoded([], 0) == []
  {
    Utf8.DecodedEnd([], 0);
  }

  /** All of pend is pending. */
  lemma AllPending(pend: seq<int>)
    requires Waits(pend)
    ensures Settled(pend) == [] && Behind(pend) == pend
  {
    if pend != [] {
      assert pend[0..] == pend;
      PendingIs(pend, 0);
    }
  }

  lemma NothingMore(pend: seq<int>)
    requires Waits(pend)
    ensures Behind(pend) == pend && Shown(pend, []) == []
  {
    hide Utf8.Decoded, Pending, Settled, Behind, CheckByte, Run;
    AllPending(pend);
    assert pend + [] == pend;
    SettledNothing();
  }

  /** More continuations, but not enough. */
  lemma StillWaits(pend: seq<int>, t: seq<int>)
    requires Waits(pend) && Bytes(t) && pend != [] && |t| < Need(pend) && !Breaks(pend, t)
    ensures Waits(pend + t) && Behind(pend + t) == pend + t && Shown(pend, t) == []
    ensures Need(pend + t) == Need(pend) - |t|
  {
    hide Utf8.Decoded, Settled, Behind, Pending, CheckByte;
    BeginsOn(pend, t);
    BytesJoin(pend, t);
    AllPending(pend + t);
    Utf8.DecodedEnd([], 0);
  }

  /** The octets that were missing, and what comes behind them. */
  lemma Completed(pend: seq<int>, t: seq<int>)
    requires Waits(pend) && Bytes(t) && pend != [] && Run(t, Need(pend)) == Need(pend) <= |t|
    ensures var n := Need(pend); var e := pend + t[..n]; var rest := t[n..];
      && Bytes(e) && Bytes(Settled(rest)) && Behind(pend + t) == Behind(rest)
      && Shown(pend, t) == Utf8.Decoded(e, 0) + Utf8.Decoded(Settled(rest), 0)
  {
    hide Utf8.Decoded, Settled, Behind, Pending, Begins, CheckByte, Run, Utf8.Continuation;
    var n := Need(pend);
    var e, rest := pend + t[..n], t[n..];
    SliceBytes(t, 0, n);
    SliceBytes(t, n, |t|);
    BytesJoin(pend, t[..n]);
    WholeSettled(pend, t[..n]);
    assert pend + t == e + rest;
    BehindWaits(rest);
    PendingTail(e, rest);
    DecodedSplit(e, Settled(rest), 0);
  }

  /** A character with all its octets is not pending. */
  lemma WholeSettled(pend: seq<int>, s: seq<int>)
    requires Begins(pend) && Continue(s) && |pend| + |s| == CheckByte(pend[0])
    ensures Pending(pend + s) == 0
  {
    var e := pend + s;
    var p := Pending(e);
    BeginsShort(pend);
    if p > 0 {
      BeginsShort(e[|e| - p..]);
      forall i | 0 < i < |e| ensures Utf8.Continuation(e[i]) {
        assert e[i] == if i < |pend| then pend[i] else s[i - |pend|];
      }
    }
  }

  lemma BrokenBehind(pend: seq<int>, t: seq<int>)
    requires Waits(pend) && Bytes(t) && Breaks(pend, t)
    ensures var rest := t[Run(t, Need(pend))..];
      Bytes(Settled(rest)) && Behind(pend + t) == Behind(rest)
      && Shown(pend, t) == [Utf8.REPLACEMENT] + Utf8.Decoded(Settled(rest), 0)
  {
    hide Utf8.Decoded, Settled, Behind, Pending;
    var n := Run(t, Need(pend));
    BrokenBegins(pend, t);
    SliceBytes(t, n, |t|);
    BehindWaits(t[n..]);
    assert pend + t == (pend + t[..n]) + t[n..];
    PendingTail(pend + t[..n], t[n..]);
  }

  /** Any octets in chunks: what is given out is as if they were decoded at once, exactly if no replacement is lost. */
  method DecodeUtf8(chunks: seq<seq<int>>) returns (out: seq<int>)
    requires Bytes(Flat(chunks))
    ensures out == Streamed(chunks)
    ensures out == Utf8.Decoded(Flat(chunks), 0) <==> LostAll(chunks) == 0
  {
    hide Utf8.Decoded, Flat, Shown, LostAll, ShownAll, Pending, Behind, Settled, Waits, Begins, Bytes,
      Utf8Decoder.Holds;
    var d := new Utf8Decoder();
    ghost var w: seq<int> := [];
    NoParts<int>(chunks);
    NothingShown();
    out := [];
    var i := 0;
    while i < |chunks|
      invariant i <= |chunks| && fresh(d) && fresh(d.lastChar) && w == Flat(chunks[..i]) && Bytes(w)
      invariant out == ShownAll(chunks[..i]) && d.Holds(Behind(w))
    {
      FlatSplit(chunks, i);
      PartBytes(chunks, i);
      BytesJoin(w, chunks[i]);
      OneMore(chunks, i);
      SettledOn(w, chunks[i]);
      var next := d.Write(chunks[i], Behind(w));
      out := out + next;
      w := w + chunks[i];
      i := i + 1;
    }
    assert chunks[..i] == chunks;
    BehindWaits(w);
    NothingMore(Behind(w));
    assert Behind(w) + [] == Behind(w);
    BehindAgain(w);
    var last := d.End([], Behind(w));
    out := out + last;
    StreamedIff(chunks);
  }

  lemma NothingShown()
    ensures Flat<int>([]) == [] && Bytes(Flat<int>([])) && ShownAll([]) == [] && Behind([]) == []
  {
  }

  lemma BehindAgain(w: seq<int>)
    ensures Pending(Behind(w)) == Pending(w)
  {
    if Pending(w) > 0 {
      assert Behind(w)[0..] == Behind(w);
      PendingIs(Behind(w), 0);
    }
  }

  lemma OneMore(chunks: seq<seq<int>>, i: nat)
    requires i < |chunks| && Bytes(Flat(chunks[..i])) && Bytes(chunks[i]) && Bytes(Flat(chunks[..i]) + chunks[i])
    ensures Flat(chunks[..i + 1]) == Flat(chunks[..i]) + chunks[i] && Bytes(Flat(chunks[..i + 1]))
    ensures Waits(Behind(Flat(chunks[..i])))
    ensures ShownAll(chunks[..i + 1]) == ShownAll(chunks[..i]) + Shown(Behind(Flat(chunks[..i])), chunks[i])
  {
    assert chunks[..i + 1][..i] == chunks[..i] && chunks[..i + 1][i] == chunks[i];
    BehindWaits(Flat(chunks[..i]));
  }

  lemma PartBytes(parts: seq<seq<int>>, i: nat)
    requires i < |parts| && Bytes(Flat(parts))
    ensures Bytes(parts[i])
  {
    hide Flat;
    FlatSplit(parts, i);
    var q, c := Flat(parts[..i]), Flat(parts);
    forall j | 0 <= j < |parts[i]| ensures Byte(parts[i][j]) { assert parts[i][j] == c[|q| + j]; }
  }

  lemma NoParts<T>(parts: seq<seq<T>>)
    ensures Flat(parts[..0]) == []
  {
  }

  /** A cut behind two octets of a character of three, and then no continuation: one replacement, not two. */
  lemma CutLosesOne()
    ensures var chunks := [[0xE2, 0x82], [0x41]];
      Bytes(Flat(chunks)) && LostAll(chunks) == 1 && Streamed(chunks) == [Utf8.REPLACEMENT, 0x41]
  {
    hide Utf8.Decoded, Pending, Settled, Behind, Begins, Breaks, Shown, Lost, Flat;
    var w, a, no: seq<seq<int>> := [0xE2, 0x82], [0x41], [];
    CutShown();
    FlatOne(w);
    FlatPush([w], a);
    assert [w, a][..1] == [w] && [w] + [a] == [w, a] && [w][..0] == no && [] + w == w;
    NothingShown();
    PendingTail(w, a);
    assert ShownAll([w]) == ShownAll(no) + Shown([], w) && LostIn([w]) == 0;
    assert ShownAll([w, a]) == ShownAll([w]) + Shown(w, a) && LostIn([w, a]) == 1;
  }

  lemma CutShown()
    ensures var w, a := [0xE2, 0x82], [0x41];
      && Bytes(w + a) && Waits(w) && Behind(w) == w && Pending(a) == 0 && !Utf8.Continuation(a[0])
      && Shown([], w) == [] && Lost([], w) == 0 && Shown(w, a) == [Utf8.REPLACEMENT, 0x41] && Lost(w, a) == 1
  {
    hide Utf8.Decoded, Pending, Settled, Behind, Utf8.DecodeAt;
    var w, a := [0xE2, 0x82], [0x41];
    AllPending(w);
    NoneBegins(a);
    assert [] + w == w && Run(a, 1) == 0 && a[0..] == a;
    SettledNothing();
    Utf8.RoundTrip([], a);
    assert Utf8.Encoded(0x41) == a && Utf8.EncodedAll(a) == a && [] + a == a && Utf8.UnitsAll(a) == a;
  }

  lemma NoneBegins(a: seq<int>)
    requires |a| == 1 && CheckByte(a[0]) <= 1
    ensures Pending(a) == 0 && Settled(a) == a && Behind(a) == []
  {
    BeginsOne(a[0..]);
  }

  // ---- Valid strings ----------------------------------------------------------------------------------------------

  lemma PrefixOf(q: seq<int>, e: seq<int>, rest: seq<int>)
    requires q <= e + rest && |e| <= |q|
    ensures e <= q && q[|e|..] == rest[..|q| - |e|]
  {
  }

  lemma First(ds: seq<int>)
    requires Utf8.Scalars(ds) && ds != []
    ensures Utf8.EncodedAll(ds) == Utf8.Encoded(ds[0]) + Utf8.EncodedAll(ds[1..])
    ensures |ds| == 1 ==> Utf8.EncodedAll(ds) == Utf8.Encoded(ds[0])
  {
  }

  lemma Nothing(ds: seq<int>)
    requires ds == []
    ensures Utf8.EncodedAll(ds) == []
  {
  }

  /** A prefix of the octets of a string: whole characters f, and p octets of the next, if there is one. */
  lemma CutAt(q: seq<int>, ds: seq<int>) returns (f: seq<int>, p: nat)
    requires Utf8.Scalars(ds) && q <= Utf8.EncodedAll(ds)
    ensures f <= ds && Utf8.Scalars(f) && (|f| == |ds| ==> p == 0 && q == Utf8.EncodedAll(f))
    ensures |f| < |ds| ==>
      var c := ds[|f|];
      && p < |Utf8.Encoded(c)| && q == Utf8.EncodedAll(f) + Utf8.Encoded(c)[..p]
      && Utf8.EncodedAll(ds) == Utf8.EncodedAll(f) + Utf8.Encoded(c) + Utf8.EncodedAll(ds[|f| + 1..])
  {
    hide Utf8.Encoded, Utf8.EncodedAll, Utf8.Fitting, Utf8.Scalar;
    f := Utf8.Fitting(ds, Some(|q|));
    var e := Utf8.EncodedAll(f);
    Utf8.FittingWithin(ds, Some(|q|));
    assert ds == f + ds[|f|..];
    Utf8.EncodedJoin(f, ds[|f|..]);
    PrefixOf(q, e, Utf8.EncodedAll(ds[|f|..]));
    p := |q| - |e|;
    if |f| < |ds| {
      Utf8.FittingLongest(ds, Some(|q|), |f| + 1);
      var c := ds[|f|];
      assert ds[..|f| + 1] == f + [c];
      Utf8.EncodedJoin(f, [c]);
      First([c]);
      First(ds[|f|..]);
      assert ds[|f|..][1..] == ds[|f| + 1..];
      PrefixOf(q[|e|..], [], Utf8.Encoded(c) + Utf8.EncodedAll(ds[|f| + 1..]));
    } else {
      Nothing(ds[|f|..]);
    }
  }

  /** The octets of a character: one that says how many there are, and continuations. */
  lemma OctetsOf(c: int)
    requires Utf8.Scalar(c)
    ensures var e := Utf8.Encoded(c);
      && Bytes(e) && CheckByte(e[0]) == (if |e| == 1 then 0 else |e|)
      && forall j | 0 < j < |e| :: Utf8.Continuation(e[j])
  {
  }

  /** After whole characters nothing is pending. */
  lemma {:induction false} NonePendingAfter(f: seq<int>)
    requires Utf8.Scalars(f)
    ensures Pending(Utf8.EncodedAll(f)) == 0
  {
    hide Utf8.Encoded, CheckByte, Pending, Utf8.Continuation, Begins;
    if f == [] {
      Nothing(f);
    } else {
      First(f);
      NonePendingAfter(f[1..]);
      WholeCharacter(f[0]);
      PendingTail(Utf8.Encoded(f[0]), Utf8.EncodedAll(f[1..]));
    }
  }

  lemma WholeCharacter(c: int)
    requires Utf8.Scalar(c)
    ensures Pending(Utf8.Encoded(c)) == 0
  {
    hide Utf8.Encoded, CheckByte, Pending;
    var e := Utf8.Encoded(c);
    OctetsOf(c);
    if |e| == 1 {
      NoneBegins(e);
    } else {
      assert e[..1] + e[1..] == e;
      WholeSettled(e[..1], e[1..]);
    }
  }

  /** In a valid string no character is broken off. */
  lemma NotBroken(w: seq<int>, t: seq<int>, cs: seq<int>)
    requires Utf8.Scalars(cs) && Bytes(w) && w + t <= Utf8.EncodedAll(cs)
    ensures Waits(Behind(w)) && !Breaks(Behind(w), t)
  {
    hide Utf8.Encoded, Utf8.EncodedAll, Utf8.Scalar, Pending, Behind, CheckByte;
    BehindWaits(w);
    assert w == (w + t)[..|w|];
    var f, p := CutAt(w, cs);
    NonePendingAfter(f);
    if |f| == |cs| || p == 0 {
      PendingTail(Utf8.EncodedAll(f), []);
      assert w == Utf8.EncodedAll(f) + [];
      SettledNothing();
    } else {
      var c := cs[|f|];
      var e := Utf8.Encoded(c);
      OctetsOf(c);
      BeginsCharacter(c, p);
      PendingTail(Utf8.EncodedAll(f), e[..p]);
      AllPending(e[..p]);
      forall j | 0 <= j < |t| && p + j < |e| ensures Utf8.Continuation(t[j]) {
        assert t[j] == (w + t)[|w| + j] == Utf8.EncodedAll(cs)[|w| + j] == e[p + j];
      }
    }
  }

  lemma BeginsCharacter(c: int, p: nat)
    requires Utf8.Scalar(c) && 0 < p < |Utf8.Encoded(c)|
    ensures Waits(Utf8.Encoded(c)[..p]) && Need(Utf8.Encoded(c)[..p]) == |Utf8.Encoded(c)| - p
  {
    hide Utf8.Encoded, CheckByte;
    OctetsOf(c);
  }

  /** A valid string in chunks, cut anywhere, loses nothing: it is decoded as it would be at once. */
  lemma ValidStreamed(chunks: seq<seq<int>>, cs: seq<int>)
    requires Utf8.Scalars(cs) && Flat(chunks) == Utf8.EncodedAll(cs)
    ensures Bytes(Flat(chunks)) && LostAll(chunks) == 0 && Streamed(chunks) == Utf8.UnitsAll(cs)
  {
    hide Utf8.Encoded, Utf8.EncodedAll, Utf8.UnitsAll, Utf8.Scalar, Utf8.Decoded, Pending, Streamed, Flat;
    Utf8.EncodedBytes(cs);
    assert chunks[..|chunks|] == chunks;
    ValidLosesNothing(chunks, cs, |chunks|);
    NonePendingAfter(cs);
    StreamedIff(chunks);
    Utf8.RoundTrip([], cs);
    assert [] + Utf8.EncodedAll(cs) == Utf8.EncodedAll(cs);
  }

  lemma {:induction false} ValidLosesNothing(chunks: seq<seq<int>>, cs: seq<int>, i: nat)
    requires Utf8.Scalars(cs) && Bytes(Flat(chunks)) && Flat(chunks) == Utf8.EncodedAll(cs) && i <= |chunks|
    ensures Bytes(Flat(chunks[..i])) && LostIn(chunks[..i]) == 0
  {
    hide Utf8.EncodedAll, Utf8.Scalar, Behind, Breaks, Waits, Flat;
    if i == 0 {
      NothingShown();
      assert chunks[..0] == [];
    } else {
      var w, t := Flat(chunks[..i - 1]), chunks[i - 1];
      ValidLosesNothing(chunks, cs, i - 1);
      PartBytes(chunks, i - 1);
      FlatSplit(chunks, i - 1);
      assert chunks[..i][..i - 1] == chunks[..i - 1];
      BytesJoin(w, t);
      NotBroken(w, t, cs);
    }
  }

  // ---- base64 -----------------------------------------------------------------------------------------------------

  /** The whole groups of three octets, and what is left of q. */
  function Head(q: seq<int>): seq<int> {
    q[..|q| - |q| % 3]
  }

  function Tail(q: seq<int>): (r: seq<int>)
    ensures |r| < 3
  {
    q[|q| - |q| % 3..]
  }

  lemma HeadTailIs(q: seq<int>)
    ensures q == Head(q) + Tail(q) && |Head(q)| % 3 == 0 && |Tail(q)| == |q| % 3
    ensures |q| < 3 ==> Head(q) == [] && Tail(q) == q
  {
  }

  lemma HeadTail(q: seq<int>)
    requires Bytes(q)
    ensures q == Head(q) + Tail(q) && Bytes(Head(q)) && Bytes(Tail(q))
    ensures |q| < 3 ==> Head(q) == [] && Tail(q) == q
    ensures Base64.Encoded(q) == Base64.Encoded(Head(q)) + Base64.Encoded(Tail(q))
  {
    hide Base64.Encoded, Head, Tail;
    HeadTailIs(q);
    BytesSplit(Head(q), Tail(q));
    Base64.EncodedJoin(Head(q), Tail(q));
  }

  lemma Remainders(a: nat, b: nat)
    ensures (a % 3 + b) % 3 == (a + b) % 3 && (a - a % 3) % 3 == 0
  {
  }

  lemma HeadTailOn(q: seq<int>, t: seq<int>)
    ensures Head(q + t) == Head(q) + Head(Tail(q) + t) && Tail(q + t) == Tail(Tail(q) + t)
  {
    Remainders(|q|, |t|);
    var r, s := q + t, Tail(q) + t;
    var k, n := |q| - |q| % 3, |r| % 3;
    assert |s| % 3 == n && r == q[..k] + s;
    assert r[..|r| - n] == q[..k] + s[..|s| - n];
    assert r[|r| - n..] == s[|s| - n..];
  }

  /** Groups are taken off the front as they fill up. */
  lemma HeadOn(q: seq<int>, t: seq<int>)
    requires Bytes(q) && Bytes(t)
    ensures Bytes(q + t) && Head(q + t) == Head(q) + Head(Tail(q) + t) && Tail(q + t) == Tail(Tail(q) + t)
    ensures Bytes(Head(q)) && Bytes(Tail(q) + t) && Bytes(Head(q + t))
      && Bytes(Head(Tail(q) + t))
    ensures Base64.Encoded(Head(q + t)) == Base64.Encoded(Head(q)) + Base64.Encoded(Head(Tail(q) + t))
  {
    hide Base64.Encoded, Head, Tail;
    HeadTailOn(q, t);
    HeadTailIs(q);
    BytesSplit(Head(q), Tail(q));
    HeadTail(Tail(q) + t);
    Base64.EncodedJoin(Head(q), Head(Tail(q) + t));
  }

  lemma Cut(t: seq<int>, i: nat)
    requires i <= |t|
    ensures var n := (|t| - i) % 3; 0 <= n <= |t| - i && Head(t[i..]) == t[i..|t| - n] && Tail(t[i..]) == t[|t| - n..]
  {
  }

  class Base64Decoder {
    var lastNeed: nat
    var lastTotal: nat
    const lastChar: array<int>

    /** The octets pend, fewer than three, wait. */
    ghost predicate Holds(pend: seq<int>)
      reads this, lastChar
    {
      && lastChar.Length == 3 && |pend| < 3
      && if pend == [] then lastNeed == 0 else lastTotal == 3 && lastNeed == 3 - |pend| && lastChar[..|pend|] == pend
    }

    constructor ()
      ensures Holds([]) && fresh(lastChar)
    {
      lastNeed, lastTotal := 0, 0;
      lastChar := new int[3](_ => 0);
    }

    /** `base64Text` */
    method Text(t: seq<int>, i: nat) returns (out: seq<char>)
      requires lastNeed == 0 && lastChar.Length == 3 && Bytes(t) && i <= |t|
      modifies this, lastChar
      ensures out == Base64.Encoded(Head(t[i..])) && Holds(Tail(t[i..]))
    {
      hide Base64.Encoded, Head, Tail;
      var n := (|t| - i) % 3;
      Cut(t, i);
      if n == 0 {
        out := Base64.FromByteArray(t[i..]);
        assert t[i..] == t[i..|t| - n] && t[|t|..] == [];
        return;
      }
      lastNeed, lastTotal := 3 - n, 3;
      if n == 1 {
        lastChar[0] := t[|t| - 1];
      } else {
        lastChar[0], lastChar[1] := t[|t| - 2], t[|t| - 1];
      }
      out := Base64.FromByteArray(t[i..|t| - n]);
    }

    /** The `fillLast` that all encodings but UTF-8 use. */
    method FillLast(t: seq<int>, ghost pend: seq<int>) returns (r: Option<seq<char>>)
      requires Holds(pend) && pend != [] && Bytes(t) && Bytes(pend)
      modifies this`lastNeed, lastChar
      ensures old(lastNeed) <= |t| ==>
        lastNeed == old(lastNeed) && Bytes(pend + t[..lastNeed]) && r == Some(Base64.Encoded(pend + t[..lastNeed]))
      ensures old(lastNeed) > |t| ==> r == None && Holds(pend + t)
    {
      hide Base64.Encoded;
      var have := lastTotal - lastNeed;
      if lastNeed <= |t| {
        Copy(t, lastChar, have, lastNeed);
        assert lastChar[..3] == pend + t[..lastNeed];
        var s := Base64.FromByteArray(lastChar[..lastTotal]);
        return Some(s);
      }
      Copy(t, lastChar, have, |t|);
      lastNeed := lastNeed - |t|;
      assert lastChar[..have + |t|] == pend + t;
      return None;
    }

    /** `write`: the whole groups of three of what waits and comes are encoded, and the rest waits. */
    method Write(t: seq<int>, ghost pend: seq<int>) returns (out: seq<char>)
      requires Holds(pend) && Bytes(t) && Bytes(pend)
      modifies this, lastChar
      ensures Bytes(pend + t) && out == Base64.Encoded(Head(pend + t)) && Holds(Tail(pend + t))
    {
      hide Base64.Encoded, Head, Tail;
      ghost var q := pend + t;
      HeadTail(q);
      Base64.EncodedNothing();
      if |t| == 0 {
        assert q == pend;
        return [];
      }
      if lastNeed == 0 {
        assert q == t && t[0..] == t;
        out := Text(t, 0);
        return;
      }
      var e := FillLast(t, pend);
      if e.None? {
        return [];
      }
      var n := lastNeed;
      lastNeed := 0;
      assert q == (pend + t[..n]) + t[n..];
      GroupOn(pend + t[..n], t[n..]);
      if n < |t| {
        var more := Text(t, n);
        return e.value + more;
      }
      assert t[n..] == [];
      return e.value;
    }

    /** `end` */
    method End(t: seq<int>, ghost pend: seq<int>) returns (out: seq<char>)
      requires Holds(pend) && Bytes(t) && Bytes(pend)
      modifies this, lastChar
      ensures Bytes(pend + t) && out == Base64.Encoded(pend + t)
    {
      hide Base64.Encoded, Head, Tail;
      HeadTail(pend + t);
      var e := Write(t, pend);
      if lastNeed == 0 {
        Base64.EncodedNothing();
        return e;
      }
      ghost var left := Tail(pend + t);
      assert lastChar[..3 - lastNeed] == left;
      var last := Base64.FromByteArray(lastChar[..3 - lastNeed]);
      out := e + last;
    }
  }

  lemma GroupOn(group: seq<int>, t: seq<int>)
    requires Bytes(group) && Bytes(t) && |group| == 3
    ensures Base64.Encoded(Head(group + t)) == Base64.Encoded(group) + Base64.Encoded(Head(t))
      && Tail(group + t) == Tail(t)
    ensures t == [] ==> Base64.Encoded(Head(group + t)) == Base64.Encoded(group) && Tail(group + t) == []
  {
    hide Base64.Encoded;
    HeadOn(group, t);
    assert Head(group) == group && Tail(group) + t == t;
    if t == [] {
      Base64.EncodedNothing();
      assert Head(t) == [];
    }
  }

  /** Any octets in chunks, cut anywhere, are encoded as they would be at once. */
  method EncodeBase64(chunks: seq<seq<int>>) returns (out: seq<char>)
    requires Bytes(Flat(chunks))
    ensures out == Base64.Encoded(Flat(chunks))
  {
    hide Base64.Encoded, Flat, Head, Tail;
    var d := new Base64Decoder();
    ghost var q: seq<int> := [];
    NoParts<int>(chunks);
    Base64.EncodedNothing();
    HeadTail(q);
    out := [];
    var i := 0;
    while i < |chunks|
      invariant i <= |chunks| && fresh(d) && fresh(d.lastChar) && q == Flat(chunks[..i]) && Bytes(q)
      invariant Bytes(Head(q)) && out == Base64.Encoded(Head(q)) && d.Holds(Tail(q))
    {
      FlatSplit(chunks, i);
      PartBytes(chunks, i);
      HeadTail(q);
      HeadOn(q, chunks[i]);
      HeadTail(q + chunks[i]);
      var next := d.Write(chunks[i], Tail(q));
      out := out + next;
      q := q + chunks[i];
      i := i + 1;
    }
    assert chunks[..i] == chunks;
    HeadTail(q);
    var last := d.End([], Tail(q));
    assert Tail(q) + [] == Tail(q);
    out := out + last;
  }
}
