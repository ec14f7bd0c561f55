/** Sequences of octets, and sequences of sequences end to end. */
module Sequences {
  predicate Byte(b: int) {
    0 <= b < 256
  }

  ghost predicate Bytes(b: seq<int>) {
    forall i | 0 <= i < |b| :: Byte(b[i])
  }

  lemma BytesJoin(a: seq<int>, b: seq<int>)
    requires Bytes(a) && Bytes(b)
    ensures Bytes(a + b)
  {
  }

  lemma BytesSplit(a: seq<int>, b: seq<int>)
    requires Bytes(a + b)
    ensures Bytes(a) && Bytes(b)
  {
    var q := a + b;
    forall j | 0 <= j < |a| ensures Byte(a[j]) { assert a[j] == q[j]; }
    forall j | 0 <= j < |b| ensures Byte(b[j]) { assert b[j] == q[|a| + j]; }
  }

  /** The parts, end to end. */
  function Flat<T>(parts: seq<seq<T>>): seq<T> {
    if parts == [] then [] else Flat(parts[..|parts| - 1]) + parts[|parts| - 1]
  }

  lemma FlatPush<T>(parts: seq<seq<T>>, p: seq<T>)
    ensures Flat(parts + [p]) == Flat(parts) + p
  {
    assert (parts + [p])[..|parts|] == parts;
  }

  lemma {:induction false} FlatJoin<T>(a: seq<seq<T>>, b: seq<seq<T>>)
    ensures Flat(a + b) == Flat(a) + Flat(b)
  {
    if b == [] {
      assert a + b == a;
    } else {
      var n := |b| - 1;
      LastOf(a, b, n);
      FlatJoin(a, b[..n]);
      hide Flat;
      FlatPush(a + b[..n], b[n]);
      FlatPush(b[..n], b[n]);
      assert (Flat(a) + Flat(b[..n])) + b[n] == Flat(a) + (Flat(b[..n]) + b[n]);
    }
  }

  lemma LastOf<E>(a: seq<E>, b: seq<E>, n: nat)
    requires |b| == n + 1
    ensures b == b[..n] + [b[n]] && a + b == (a + b[..n]) + [b[n]]
  {
  }

  lemma FlatOne<T>(p: seq<T>)
    ensures Flat([p]) == p
  {
    FlatPush([], p);
  }

  lemma SliceSplit<E>(s: seq<E>, k: nat)
    requires k < |s|
    ensures s[..k + 1] == s[..k] + [s[k]] && s[k..] == [s[k]] + s[k + 1..] && s == (s[..k] + [s[k]]) + s[k + 1..]
  {
  }

  lemma FlatSplit<T>(parts: seq<seq<T>>, k: nat)
    requires k < |parts|
    ensures Flat(parts[..k + 1]) == Flat(parts[..k]) + parts[k]
    ensures Flat(parts) == Flat(parts[..k + 1]) + Flat(parts[k + 1..])
    ensures Flat(parts[k..]) == parts[k] + Flat(parts[k + 1..])
  {
    hide Flat;
    var a, b, c := parts[..k], [parts[k]], parts[k + 1..];
    SliceSplit(parts, k);
    FlatJoin(a + b, c);
    FlatJoin(a, b);
    FlatJoin(b, c);
    FlatOne(parts[k]);
  }
}
