/** The Map of the standard-library polyfill: records in a doubly linked list and an index by key, which callbacks may
    change while forEach or an iterator walks it. */
module LiveMap {
  import opened Options
  import opened Records
  import opened Shapes

  /** `fastKey` gives the index key, none for a frozen object; `loose` is the operator == that the linear search for
      frozen objects uses. */
  datatype Keys<!K> = Keys(fast: K -> Option<string>, loose: (K, K) -> bool)

  ghost predicate KeysOk<K(!new)>(ks: Keys<K>) {
    && (forall a, b :: ks.fast(a).Some? && ks.fast(a) == ks.fast(b) ==> a == b)
    && forall a :: ks.loose(a, a)
  }

  /** Section 23.1.3 of ECMA-262: the list of records, in which a removed one stays as empty. */
  datatype Rec<K, V> = Empty | Rec(k: K, v: V)

  type Data<K, V> = seq<Rec<K, V>>

  /** The search of `getEntry` on the list of records; |data| if there is no such record. */
  function Find<K, V>(ks: Keys<K>, data: Data<K, V>, k: K, from: nat := 0): (i: nat)
    requires from <= |data|
    ensures from <= i <= |data|
    ensures i < |data| ==> data[i].Rec? && Matches(ks, data[i].k, k)
    ensures forall j | from <= j < i :: data[j].Rec? ==> !Matches(ks, data[j].k, k)
    decreases |data| - from
  {
    if from == |data| || (data[from].Rec? && Matches(ks, data[from].k, k)) then from
    else Find(ks, data, k, from + 1)
  }

  predicate Matches<K>(ks: Keys<K>, k: K, wanted: K) {
    if ks.fast(wanted) == None then ks.loose(k, wanted) else ks.fast(k) == ks.fast(wanted)
  }

  datatype Op<K, V> = SetOp(k: K, v: V) | DeleteOp(k: K) | ClearOp

  /** What a call does to the list of records. */
  function Applied<K, V>(ks: Keys<K>, data: Data<K, V>, op: Op<K, V>): (r: Data<K, V>)
    ensures |r| >= |data|
  {
    match op
    case SetOp(k, v) =>
      var i := Find(ks, data, k);
      if i < |data| then data[i := Rec(data[i].k, v)] else data + [Rec(k, v)]
    case DeleteOp(k) =>
      var i := Find(ks, data, k);
      if i < |data| then data[i := Empty] else data
    case ClearOp => seq(|data|, _ => Empty)
  }

  function AppliedAll<K, V>(ks: Keys<K>, data: Data<K, V>, ops: seq<Op<K, V>>): (r: Data<K, V>)
    ensures |r| >= |data|
    decreases |ops|
  {
    if ops == [] then data else AppliedAll(ks, Applied(ks, data, ops[0]), ops[1..])
  }

  /** forEach of section 23.1.3.5: over the growing list of records, skipping empty ones; the k-th call of the callback
      makes the calls script[k]. */
  function Visits<K, V>(ks: Keys<K>, data: Data<K, V>, i: nat, script: seq<seq<Op<K, V>>>)
    : (r: (seq<(K, V)>, Data<K, V>))
    requires i <= |data|
    decreases |script|, |data| - i
  {
    if i == |data| then ([], data)
    else if data[i].Empty? then Visits(ks, data, i + 1, script)
    else
      var (ops, rest) := if script == [] then ([], []) else (script[0], script[1..]);
      var data' := AppliedAll(ks, data, ops);
      var (more, end) := Visits(ks, data', i + 1, rest);
      ([(data[i].k, data[i].v)] + more, end)
  }

  class Entry<K, V> {
    const i: Option<string>
    const k: K
    var v: V
    var p: Entry?<K, V>
    var n: Entry?<K, V>
    var r: bool
    /** Its place among all records ever made. */
    ghost const pos: nat

    constructor (i: Option<string>, k: K, v: V, p: Entry?<K, V>, ghost pos: nat)
      ensures this.i == i && this.k == k && this.v == v && this.p == p && this.n == null && !r && this.pos == pos
    {
      this.i, this.k, this.v, this.p, this.n, this.r, this.pos := i, k, v, p, null, false, pos;
    }
  }

  /** The mutable fields of an entry, and those of all entries, at one moment. */
  datatype Cell<K, V> = Cell(v: V, p: Entry?<K, V>, n: Entry?<K, V>, r: bool)

  type Store<K, V> = map<Entry<K, V>, Cell<K, V>>

  ghost function Snap<K, V>(all: set<Entry<K, V>>): (h: Store<K, V>)
    reads all
    ensures h.Keys == all && forall e | e in all :: h[e] == Cell(e.v, e.p, e.n, e.r)
  {
    map e | e in all :: Cell(e.v, e.p, e.n, e.r)
  }

  ghost function Pos<K, V>(e: Entry?<K, V>): int {
    if e == null then -1 else e.pos
  }

  /** What `def` writes into the entries for a new one. */
  ghost function Linkings<K, V>(h: Store<K, V>, last: Entry?<K, V>, a: Entry<K, V>, v: V): Store<K, V>
    requires last == null || last in h
  {
    (if last != null then h[last := h[last].(n := a)] else h)[a := Cell(v, last, null, false)]
  }

  /** What `delete` writes into the entries. */
  ghost function Unlinkings<K, V>(h: Store<K, V>, r: Entry<K, V>): Store<K, V>
    requires r in h && (h[r].p == null || h[r].p in h) && (h[r].n == null || h[r].n in h)
  {
    var a, o := h[r].p, h[r].n;
    var h1 := h[r := h[r].(r := true)];
    var h2 := if a != null then h1[a := h1[a].(n := o)] else h1;
    if o != null then h2[o := h2[o].(p := a)] else h2
  }

  /** The record with exactly this key, as section 23.1.3 of ECMA-262 looks it up. */
  function FindExact<K(==), V>(data: Data<K, V>, k: K, from: nat := 0): (i: nat)
    requires from <= |data|
    ensures from <= i <= |data| && (i < |data| ==> data[i].Rec? && data[i].k == k)
    ensures forall j | from <= j < i :: data[j].Rec? ==> data[j].k != k
    decreases |data| - from
  {
    if from == |data| || (data[from].Rec? && data[from].k == k) then from else FindExact(data, k, from + 1)
  }

  /** A record whose key only looks like the frozen object k under ==, and that k's own record, if any, does not
      precede. */
  ghost predicate LooseTwin<K, V>(ks: Keys<K>, data: Data<K, V>, k: K) {
    exists j | 0 <= j < |data| ::
      data[j].Rec? && data[j].k != k && ks.loose(data[j].k, k) && FindExact(data, k) > j
  }

  /** The search finds the record that the standard asks for exactly when the key is no frozen object or no record
      before it only looks like the key. */
  lemma SearchIsExactIff<K(!new), V>(ks: Keys<K>, data: Data<K, V>, k: K)
    requires KeysOk(ks)
    ensures Find(ks, data, k) == FindExact(data, k) <==> ks.fast(k).Some? || !LooseTwin(ks, data, k)
  {
  }

  /** Strings, and frozen objects, each with the string it is converted to: "[object Object]" for a frozen {}. */
  datatype Key = Text(s: string) | Frozen(id: nat, text: string)

  /** a == b: a string is equal to the objects that are converted to it. */
  predicate LooselyEqual(a: Key, b: Key) {
    match (a, b)
    case (Text(s), Frozen(_, t)) => s == t
    case (Frozen(_, s), Text(t)) => s == t
    case _ => a == b
  }

  function FastKey(k: Key): Option<string> {
    if k.Text? then Some("S" + k.s) else None
  }

  /** In a map that has a string as its only key, a frozen object that is converted to the string is found. */
  lemma FrozenKeyFindsStringKey<V>(id: nat, text: string, v: V)
    ensures var ks := Keys(FastKey, LooselyEqual);
      KeysOk(ks) && Find(ks, [Rec(Text(text), v)], Frozen(id, text)) == 0 &&
      FindExact([Rec(Text(text), v)], Frozen(id, text)) == 1
  {
    forall a, b | FastKey(a).Some? && FastKey(a) == FastKey(b) ensures a == b {
      assert ("S" + a.s)[1..] == a.s && ("S" + b.s)[1..] == b.s;
    }
  }

  /** Everything a map consists of, at one moment; log lists all records ever made, in order. */
  datatype State<!K, V> = State(log: seq<Entry<K, V>>, h: Store<K, V>, first: Entry?<K, V>, last: Entry?<K, V>,
                               index: map<string, Entry<K, V>>, size: int)
  {
    ghost predicate Here(e: Entry?<K, V>) {
      e == null || e in h
    }

    ghost predicate Pointers(e: Entry<K, V>)
      requires e in h
    {
      Here(h[e].p) && Here(h[e].n)
    }

    /** Every pointer leads to a record of the map, and every record is at its place. */
    ghost predicate InPlace() {
      && (forall e | e in h :: e.pos < |log| && log[e.pos] == e)
      && (forall a | 0 <= a < |log| :: log[a] in h && log[a].pos == a)
      && (forall e {:trigger Pointers(e)} | e in h :: Pointers(e))
      && Here(first) && Here(last)
    }

    ghost function Links(): (s: Shape)
      requires InPlace()
      ensures |s.gone| == |s.prev| == |s.next| == |log|
    {
      Shape(seq(|log|, a requires 0 <= a < |log| => h[log[a]].r),
            seq(|log|, a requires 0 <= a < |log| => Pos(h[log[a]].p)),
            seq(|log|, a requires 0 <= a < |log| => Pos(h[log[a]].n)),
            Pos(first), Pos(last))
    }

    ghost function Contents(): (d: Data<K, V>)
      requires InPlace()
      ensures |d| == |log|
      ensures forall a | 0 <= a < |d| :: d[a] == if h[log[a]].r then Empty else Rec(log[a].k, h[log[a]].v)
    {
      seq(|log|, a requires 0 <= a < |log| => if h[log[a]].r then Empty else Rec(log[a].k, h[log[a]].v))
    }

    /** The index holds the records that are there, each under its own key. */
    ghost predicate Indexed(ks: Keys<K>) {
      && (forall f | f in index :: index[f] in h && !h[index[f]].r && index[f].i == Some(f))
      && forall e | e in h ::
           e.i == ks.fast(e.k) && (!h[e].r && e.i.Some? ==> e.i.value in index && index[e.i.value] == e)
    }

    ghost predicate Ok(ks: Keys<K>) {
      InPlace() && Indexed(ks) && Sound(Links()) && size == CountLive(Links().gone)
    }

    /** The writes of `delete` for the record r. */
    ghost function Unlink(r: Entry<K, V>): State<K, V>
      requires r in h && Pointers(r)
    {
      var a, o := h[r].p, h[r].n;
      State(log, Unlinkings(h, r),
            if first == r then o else first, if last == r then a else last,
            if r.i.Some? then index - {r.i.value} else index, size - 1)
    }

    /** The writes of `def` for a new record a. */
    ghost function Append(a: Entry<K, V>, v: V): State<K, V>
      requires Here(last)
    {
      State(log + [a], Linkings(h, last, a, v),
            if first == null then a else first, a,
            if a.i.Some? then index[a.i.value := a] else index, size + 1)
    }

    /** The write of `def` for a record that is there. */
    ghost function Overwrite(a: Entry<K, V>, v: V): State<K, V>
      requires a in h
    {
      this.(h := h[a := h[a].(v := v)])
    }
  }

  lemma UnlinkInPlace<K, V>(st: State<K, V>, r: Entry<K, V>)
    requires st.InPlace() && r in st.h && st.Pointers(r)
    ensures st.Unlink(r).InPlace()
  {
    var t := st.Unlink(r);
    assert t.h.Keys == st.h.Keys;
    forall e | e in t.h ensures t.Pointers(e) { assert st.Pointers(e); }
  }

  lemma UnlinkContents<K, V>(st: State<K, V>, r: Entry<K, V>)
    requires st.InPlace() && r in st.h && st.Pointers(r) && st.Unlink(r).InPlace()
    ensures st.Unlink(r).Contents() == st.Contents()[r.pos := Empty]
  {
    var t := st.Unlink(r);
    forall e | e in st.h ensures t.h[e].v == st.h[e].v && t.h[e].r == (e == r || st.h[e].r) {}
  }

  lemma UnlinkLinks<K, V>(st: State<K, V>, r: Entry<K, V>)
    requires st.InPlace() && r in st.h && st.Pointers(r) && st.Unlink(r).InPlace()
    requires st.h[r].p != r && st.h[r].n != r
    ensures st.Unlink(r).Links() == Unlinked(st.Links(), r.pos)
  {
    hide Unlinkings;
    UnlinkedCells(st.h, r);
    var s, u := st.Unlink(r).Links(), Unlinked(st.Links(), r.pos);
    assert u.gone == s.gone && u.prev == s.prev && u.next == s.next;
  }

  lemma UnlinkedCells<K, V>(h: Store<K, V>, r: Entry<K, V>)
    requires r in h && (h[r].p == null || h[r].p in h) && (h[r].n == null || h[r].n in h)
    requires h[r].p != r && h[r].n != r
    ensures Unlinkings(h, r).Keys == h.Keys
    ensures forall e | e in h :: var c := Unlinkings(h, r)[e];
      && c.r == (e == r || h[e].r) && c.v == h[e].v
      && c.p == (if e == h[r].n then h[r].p else h[e].p) && c.n == if e == h[r].p then h[r].n else h[e].n
  {
  }

  lemma UnlinkIndexed<K, V>(ks: Keys<K>, st: State<K, V>, r: Entry<K, V>)
    requires st.Indexed(ks) && r in st.h && st.Pointers(r) && !st.h[r].r
    ensures st.Unlink(r).Indexed(ks)
  {
    var t := st.Unlink(r);
    forall e | e in t.h ensures e in st.h && t.h[e].r == (e == r || st.h[e].r) {}
  }

  lemma DeleteStep<K, V>(ks: Keys<K>, st: State<K, V>, r: Entry<K, V>)
    requires st.Ok(ks) && r in st.h && !st.h[r].r
    ensures r.pos < |st.log| && st.log[r.pos] == r
    ensures st.Pointers(r) && st.Unlink(r).Ok(ks) && st.Unlink(r).Contents() == st.Contents()[r.pos := Empty]
  {
    hide CountLive, PrevLive, NextLive, State.Indexed;
    var s := st.Links();
    assert st.Pointers(r) && StepsBack(s, r.pos) && Joined(s, r.pos);
    UnlinkedSound(s, r.pos);
    CountAfterRemoval(s.gone, r.pos);
    hide Sound;
    UnlinkInPlace(st, r);
    UnlinkContents(st, r);
    UnlinkLinks(st, r);
    UnlinkIndexed(ks, st, r);
  }

  lemma AppendInPlace<K, V>(st: State<K, V>, a: Entry<K, V>, v: V)
    requires st.InPlace() && a !in st.h && a.pos == |st.log|
    ensures st.Append(a, v).InPlace() && st.Append(a, v).Contents() == st.Contents() + [Rec(a.k, v)]
  {
    var t := st.Append(a, v);
    forall e | e in t.h ensures t.Pointers(e) { if e != a { assert st.Pointers(e); } }
  }

  lemma AppendLinks<K, V>(st: State<K, V>, a: Entry<K, V>, v: V)
    requires st.InPlace() && a !in st.h && a.pos == |st.log| && st.Append(a, v).InPlace()
    ensures st.Append(a, v).Links() == Appended(st.Links())
  {
    var t, u := st.Append(a, v).Links(), Appended(st.Links());
    assert u.gone == t.gone && u.prev == t.prev && u.next == t.next;
  }

  /** A key that the search does not find is not in the index either. */
  lemma NotFound<K(!new), V>(ks: Keys<K>, st: State<K, V>, k: K)
    requires st.InPlace() && st.Indexed(ks) && Find(ks, st.Contents(), k) == |st.log| && ks.fast(k).Some?
    ensures forall e | e in st.h && !st.h[e].r :: e.i != ks.fast(k)
  {
  }

  lemma AppendIndexed<K(!new), V>(ks: Keys<K>, st: State<K, V>, a: Entry<K, V>, v: V)
    requires st.Indexed(ks) && st.Here(st.last) && a !in st.h && a.i == ks.fast(a.k)
    requires a.i.Some? ==> forall e | e in st.h && !st.h[e].r :: e.i != a.i
    ensures st.Append(a, v).Indexed(ks)
  {
    var t := st.Append(a, v);
    forall e | e in t.h && e != a ensures e in st.h && t.h[e].r == st.h[e].r {}
  }

  lemma AppendStep<K(!new), V>(ks: Keys<K>, st: State<K, V>, a: Entry<K, V>, v: V)
    requires st.Ok(ks) && a !in st.h && a.pos == |st.log| && a.i == ks.fast(a.k)
    requires Find(ks, st.Contents(), a.k) == |st.log|
    ensures st.Here(st.last)
    ensures st.Append(a, v).Ok(ks) && st.Append(a, v).Contents() == st.Contents() + [Rec(a.k, v)]
  {
    hide CountLive, PrevLive, NextLive, State.Indexed, Find;
    if a.i.Some? { NotFound(ks, st, a.k); }
    var s := st.Links();
    AppendedSound(s);
    AfterAppend(s.gone, 0);
    hide Sound;
    AppendInPlace(st, a, v);
    AppendLinks(st, a, v);
    AppendIndexed(ks, st, a, v);
  }

  lemma OverwriteInPlace<K, V>(st: State<K, V>, a: Entry<K, V>, v: V)
    requires st.InPlace() && a in st.h && !st.h[a].r
    ensures var t := st.Overwrite(a, v);
      t.InPlace() && t.Links() == st.Links() && t.Contents() == st.Contents()[a.pos := Rec(a.k, v)]
  {
    var t := st.Overwrite(a, v);
    forall e | e in t.h ensures t.Pointers(e) { assert st.Pointers(e); }
    assert t.Links() == st.Links();
  }

  lemma OverwriteStep<K, V>(ks: Keys<K>, st: State<K, V>, a: Entry<K, V>, v: V)
    requires st.Ok(ks) && a in st.h && !st.h[a].r
    ensures st.Overwrite(a, v).Ok(ks) && st.Overwrite(a, v).Contents() == st.Contents()[a.pos := Rec(a.k, v)]
  {
    hide Sound, CountLive;
    OverwriteInPlace(st, a, v);
  }

  /** What one round of the loop of `clear` writes into the entries. */
  ghost function Erasings<K, V>(h: Store<K, V>, r: Entry<K, V>): Store<K, V>
    requires r in h && (h[r].p == null || h[r].p in h)
  {
    var p := h[r].p;
    var h1 := h[r := h[r].(r := true)];
    if p == null then h1
    else
      var h2 := h1[p := h1[p].(n := null)];
      h2[r := h2[r].(p := null)]
  }

  ghost function Erase<K, V>(st: State<K, V>, r: Entry<K, V>): State<K, V>
    requires r in st.h && st.Pointers(r)
  {
    st.(h := Erasings(st.h, r), index := if r.i.Some? then st.index - {r.i.value} else st.index)
  }

  /** `clear` has come to position at: what lies before is gone and unlinked, what lies behind is as it was. */
  ghost predicate Clearing<K, V>(st0: State<K, V>, st: State<K, V>, at: nat) {
    && st.InPlace() && st.log == st0.log && st.h.Keys == st0.h.Keys && at <= |st.log|
    && (forall e | e in st.h ::
         && st.h[e].r == (st0.h[e].r || e.pos < at) && st.h[e].v == st0.h[e].v
         && (e.pos >= at ==> st.h[e].n == st0.h[e].n) && (st.h[e].p == st0.h[e].p || st.h[e].p == null))
    && forall f | f in st.index :: f in st0.index && st.index[f] == st0.index[f] && st.index[f].pos >= at
  }

  lemma EraseStep<K, V>(ks: Keys<K>, st0: State<K, V>, st: State<K, V>, r: Entry<K, V>)
    requires st0.InPlace() && st0.Indexed(ks) && r in st.h && Clearing(st0, st, r.pos) && !st0.h[r].r && st.Pointers(r)
    requires st.h[r].p != null ==> st.h[r].p.pos < r.pos
    ensures Clearing(st0, Erase(st, r), r.pos + 1)
  {
    hide Erasings, State.InPlace, State.Indexed, State.Pointers;
    ErasedCells(st, r);
    EraseInPlace(st, r);
    OnePlace(st, r);
    OwnIndex(ks, st0, r);
  }

  lemma OnePlace<K, V>(st: State<K, V>, r: Entry<K, V>)
    requires st.InPlace() && r in st.h
    ensures r.pos < |st.log| && forall e | e in st.h :: e.pos == r.pos ==> e == r
  {
  }

  lemma OwnIndex<K, V>(ks: Keys<K>, st: State<K, V>, r: Entry<K, V>)
    requires st.Indexed(ks) && r in st.h && !st.h[r].r
    ensures r.i.Some? ==> r.i.value in st.index && st.index[r.i.value] == r
    ensures forall f | f in st.index && st.index[f] == r :: r.i == Some(f)
    ensures forall f | f in st.index :: st.index[f] in st.h
  {
  }

  lemma EraseInPlace<K, V>(st: State<K, V>, r: Entry<K, V>)
    requires st.InPlace() && r in st.h && st.Pointers(r) && st.h[r].p != r
    ensures Erase(st, r).InPlace()
  {
    var t := Erase(st, r);
    ErasedCells(st, r);
    hide Erasings;
    forall e | e in t.h ensures t.Pointers(e) { assert st.Pointers(e); }
  }

  lemma ErasedCells<K, V>(st: State<K, V>, r: Entry<K, V>)
    requires r in st.h && st.Pointers(r) && st.h[r].p != r
    ensures Erasings(st.h, r).Keys == st.h.Keys
    ensures forall e | e in st.h :: var c := Erasings(st.h, r)[e];
      && c.r == (e == r || st.h[e].r) && c.v == st.h[e].v && c.p == (if e == r then null else st.h[e].p)
      && c.n == if e == st.h[r].p then null else st.h[e].n
  {
  }

  /** One round of `clear`: from the record r to the next one of the original chain. */
  lemma ClearStep<K, V>(ks: Keys<K>, st0: State<K, V>, st: State<K, V>, r: Entry<K, V>)
    requires st0.Ok(ks) && r in st.h && Clearing(st0, st, r.pos) && !st0.h[r].r
    ensures st.Pointers(r)
    ensures var n := Erase(st, r).h[r].n; var to := if n == null then |st.log| else n.pos;
      && r.pos < to <= |st.log| && (n != null ==> n in st.h && n in st0.h && !st0.h[n].r && to < |st.log|)
      && Clearing(st0, Erase(st, r), to)
  {
    hide NextLive, PrevLive, CountLive, Erasings;
    assert st0.Pointers(r) && st.Pointers(r) && Joined(st0.Links(), r.pos) && StepsBack(st0.Links(), r.pos);
    EraseStep(ks, st0, st, r);
    NextLiveEntry(ks, st0, r);
    var t, n := Erase(st, r), st0.h[r].n;
    var to := if n == null then |st.log| else n.pos;
    forall a | r.pos < a < to ensures st0.h[st0.log[a]].r { assert st0.Contents()[a].Empty?; }
    ErasedCells(st, r);
    ClearingSkips(ks, st0, t, r.pos + 1, to);
  }

  /** The walk of `clear` goes from record to record: what it passes over is gone already. */
  lemma ClearingSkips<K, V>(ks: Keys<K>, st0: State<K, V>, st: State<K, V>, at: nat, to: nat)
    requires st0.Ok(ks) && Clearing(st0, st, at) && at <= to <= |st.log|
    requires forall a | at <= a < to :: st0.h[st0.log[a]].r
    ensures Clearing(st0, st, to)
  {
  }

  /** From a removed record, `p` leads back over removed records only. */
  lemma BackStep<K, V>(ks: Keys<K>, st: State<K, V>, e: Entry<K, V>)
    requires st.Ok(ks) && e in st.h && st.h[e].r
    ensures var p, g := st.h[e].p, st.Links().gone;
      && e.pos < |g| && (p != null ==> p in st.h && p.pos < e.pos)
      && PrevLive(g, Pos(p) + 1) == PrevLive(g, e.pos + 1)
  {
    assert st.Pointers(e) && StepsBack(st.Links(), e.pos);
  }

  /** One step on from where stepping back from record c ended is the next record to visit. */
  lemma ForwardStep<K, V>(ks: Keys<K>, st: State<K, V>, c: int, e: Entry?<K, V>)
    requires st.Ok(ks) && -1 <= c < |st.log| && (e != null ==> e in st.h && !st.h[e].r)
    requires Pos(e) == PrevLive(st.Links().gone, c + 1)
    ensures var n := if e == null then st.first else st.h[e].n; var to := if n == null then |st.log| else n.pos;
      && c < to <= |st.log| && (n != null ==> n in st.h && !st.h[n].r && to < |st.log|)
      && (n != null ==> st.Contents()[to] == Rec(n.k, st.h[n].v))
      && forall j | c < j < to :: st.Contents()[j].Empty?
  {
    hide PrevLive, NextLive, CountLive;
    var s := st.Links();
    CursorRule(s, c);
    NextSpec(s.gone, c + 1);
    if e != null { assert st.Pointers(e); }
    assert forall j | 0 <= j < |st.log| :: s.gone[j] ==> st.Contents()[j].Empty?;
  }

  /** The first record from i on that is not empty, as an iterator over the list finds it. */
  function FirstRec<K, V>(data: Data<K, V>, i: nat): (j: nat)
    requires i <= |data|
    ensures i <= j <= |data| && (j < |data| ==> data[j].Rec?)
    decreases |data| - i
  {
    if i == |data| || data[i].Rec? then i else FirstRec(data, i + 1)
  }

  lemma {:induction false} FirstRecSkips<K, V>(data: Data<K, V>, i: nat)
    requires i <= |data|
    ensures AllEmpty(data, i, FirstRec(data, i))
    decreases |data| - i
  {
    if i < |data| && data[i].Empty? { FirstRecSkips(data, i + 1); }
  }

  lemma {:induction false} FirstRecIs<K, V>(data: Data<K, V>, i: nat, j: nat)
    requires i <= j <= |data| && (j < |data| ==> data[j].Rec?) && forall m | i <= m < j :: data[m].Empty?
    ensures FirstRec(data, i) == j
    decreases |data| - i
  {
    if i < j { FirstRecIs(data, i + 1, j); }
  }

  lemma {:induction false} VisitsSkip<K, V>(ks: Keys<K>, data: Data<K, V>, i: nat, script: seq<seq<Op<K, V>>>)
    requires i <= |data|
    ensures Visits(ks, data, i, script) == Visits(ks, data, FirstRec(data, i), script)
    decreases |data| - i
  {
    if i < |data| && data[i].Empty? { VisitsSkip(ks, data, i + 1, script); }
  }

  /** Records stay where they are and keep their keys, and an empty one stays empty. */
  ghost predicate Grown<K, V>(data: Data<K, V>, end: Data<K, V>) {
    |data| <= |end| && forall j | 0 <= j < |data| && end[j].Rec? :: data[j].Rec? && data[j].k == end[j].k
  }

  lemma {:induction false} AppliedAllGrows<K, V>(ks: Keys<K>, data: Data<K, V>, ops: seq<Op<K, V>>)
    ensures Grown(data, AppliedAll(ks, data, ops))
    decreases |ops|
  {
    hide Find;
    if ops != [] {
      assert Grown(data, Applied(ks, data, ops[0]));
      AppliedAllGrows(ks, Applied(ks, data, ops[0]), ops[1..]);
    }
  }

  /** Calls in a row, in the order they are made in. */
  lemma {:induction false} AppliedJoin<K, V>(ks: Keys<K>, data: Data<K, V>, a: seq<Op<K, V>>, b: seq<Op<K, V>>)
    ensures AppliedAll(ks, data, a + b) == AppliedAll(ks, AppliedAll(ks, data, a), b)
    ensures a != [] ==> AppliedAll(ks, data, [a[0]]) == Applied(ks, data, a[0])
    decreases |a|
  {
    hide Applied;
    if a == [] {
      assert a + b == b;
    } else {
      assert (a + b)[0] == a[0] && (a + b)[1..] == a[1..] + b && [a[0]][1..] == [];
      AppliedJoin(ks, Applied(ks, data, a[0]), a[1..], b);
    }
  }

  function ScriptAt<K, V>(script: seq<seq<Op<K, V>>>, m: nat): seq<Op<K, V>> {
    if m < |script| then script[m] else []
  }

  /** However the callback changes the map, `forEach` visits records at ever later places, so none twice and all in the
      order of insertion; it leaves out none that is there in the end and visits none that was gone at the start. */
  lemma {:induction false} VisitsInOrder<K, V>(ks: Keys<K>, data: Data<K, V>, i: nat, script: seq<seq<Op<K, V>>>)
    returns (at: seq<nat>)
    requires i <= |data|
    ensures var (visited, end) := Visits(ks, data, i, script);
      && Grown(data, end) && |at| == |visited|
      && (forall m | 0 <= m < |at| :: i <= at[m] < |end| && (at[m] < |data| ==> data[at[m]].Rec?))
      && (forall m, n | 0 <= m < n < |at| :: at[m] < at[n])
      && (forall m | 0 <= m < |at| && end[at[m]].Rec? :: end[at[m]].k == visited[m].0)
      && forall j | i <= j < |end| && end[j].Rec? :: j in at
    decreases |script|, |data| - i
  {
    hide Applied, Find;
    if i == |data| {
      at := [];
    } else if data[i].Empty? {
      at := VisitsInOrder(ks, data, i + 1, script);
    } else {
      var (ops, rest) := if script == [] then ([], []) else (script[0], script[1..]);
      AppliedAllGrows(ks, data, ops);
      var more := VisitsInOrder(ks, AppliedAll(ks, data, ops), i + 1, rest);
      at := [i] + more;
      var (visited, end) := Visits(ks, data, i, script);
      forall j | i <= j < |end| && end[j].Rec? ensures j in at { assert j == at[0] || j in more; }
    }
  }

  ghost predicate AllEmpty<K, V>(data: Data<K, V>, from: int, to: int) {
    forall j | from <= j < to && 0 <= j < |data| :: data[j].Empty?
  }

  /** From one list of records to the next by the calls of the callback. */
  ghost predicate Chained<K, V>(ks: Keys<K>, script: seq<seq<Op<K, V>>>, states: seq<Data<K, V>>) {
    forall m | 0 <= m < |states| - 1 :: states[m + 1] == AppliedAll(ks, states[m], ScriptAt(script, m))
  }

  /** What is handed out is what the records hold at the time. */
  ghost predicate Handed<K, V>(states: seq<Data<K, V>>, at: seq<nat>, visited: seq<(K, V)>)
    requires |states| == |at| + 1 && |visited| == |at|
  {
    forall m | 0 <= m < |at| :: at[m] < |states[m]| && states[m][at[m]] == Rec(visited[m].0, visited[m].1)
  }

  /** From i on, and then from behind each place, only empty records are passed over. */
  ghost predicate Skipping<K, V>(states: seq<Data<K, V>>, at: seq<nat>, i: nat)
    requires |states| == |at| + 1
  {
    forall m | 0 <= m <= |at| :: SkipsTo(states, at, i, m)
  }

  ghost predicate SkipsTo<K, V>(states: seq<Data<K, V>>, at: seq<nat>, i: nat, m: nat)
    requires |states| == |at| + 1 && m <= |at|
  {
    var from := if m == 0 then i else at[m - 1] + 1;
    AllEmpty(states[m], from, if m < |at| then at[m] else |states[m]|) && (m < |at| ==> from <= at[m])
  }

  /** `forEach` hands out what each record holds when its turn comes (states[m] is the list of records before call m),
      and passes over empty records only. */
  lemma {:induction false} VisitsHold<K, V>(ks: Keys<K>, data: Data<K, V>, i: nat, script: seq<seq<Op<K, V>>>)
    returns (at: seq<nat>, states: seq<Data<K, V>>)
    requires i <= |data|
    ensures var (visited, end) := Visits(ks, data, i, script);
      && |at| == |visited| && |states| == |at| + 1 && states[0] == data && states[|at|] == end
      && Chained(ks, script, states) && Handed(states, at, visited) && Skipping(states, at, i)
    decreases |script|, |data| - i
  {
    hide Applied, Find, AppliedAll, Chained, Handed, Skipping;
    if i == |data| {
      at, states := [], [data];
      NoVisit(ks, data, i, script);
    } else if data[i].Empty? {
      at, states := VisitsHold(ks, data, i + 1, script);
      SkipOne(states, at, i);
    } else {
      var (ops, rest) := if script == [] then ([], []) else (script[0], script[1..]);
      var data' := AppliedAll(ks, data, ops);
      NoneApplied(ks, data);
      var more, later := VisitsHold(ks, data', i + 1, rest);
      VisitOne(ks, script, rest, data, i, later, more, Visits(ks, data', i + 1, rest).0);
      at, states := [i] + more, [data] + later;
    }
  }

  lemma NoneApplied<K, V>(ks: Keys<K>, data: Data<K, V>)
    ensures AppliedAll(ks, data, []) == data
  {
  }

  lemma NoVisit<K, V>(ks: Keys<K>, data: Data<K, V>, i: nat, script: seq<seq<Op<K, V>>>)
    requires i == |data|
    ensures Chained(ks, script, [data]) && Handed([data], [], []) && Skipping([data], [], i)
  {
  }

  lemma SkipOne<K, V>(states: seq<Data<K, V>>, at: seq<nat>, i: nat)
    requires |states| == |at| + 1 && Skipping(states, at, i + 1) && i < |states[0]| && states[0][i].Empty?
    ensures Skipping(states, at, i)
  {
    forall m | 0 <= m <= |at| ensures SkipsTo(states, at, i, m) { assert SkipsTo(states, at, i + 1, m); }
  }

  lemma VisitOne<K, V>(ks: Keys<K>, script: seq<seq<Op<K, V>>>, rest: seq<seq<Op<K, V>>>, data: Data<K, V>, i: nat,
                       states: seq<Data<K, V>>, at: seq<nat>, visited: seq<(K, V)>)
    requires rest == (if script == [] then [] else script[1..]) && |states| == |at| + 1 && |visited| == |at|
    requires i < |data| && data[i].Rec? && states[0] == AppliedAll(ks, data, ScriptAt(script, 0))
    requires Chained(ks, rest, states) && Handed(states, at, visited) && Skipping(states, at, i + 1)
    ensures Chained(ks, script, [data] + states)
    ensures Handed([data] + states, [i] + at, [(data[i].k, data[i].v)] + visited)
    ensures Skipping([data] + states, [i] + at, i)
  {
    hide AppliedAll, Handed, Skipping;
    var all := [data] + states;
    forall m | 0 <= m < |all| - 1 ensures all[m + 1] == AppliedAll(ks, all[m], ScriptAt(script, m)) {
      if m > 0 { assert all[m] == states[m - 1] && ScriptAt(script, m) == ScriptAt(rest, m - 1); }
    }
    HandOne(data, i, states, at, visited);
    SkipFirst(data, i, states, at);
  }

  lemma HandOne<K, V>(data: Data<K, V>, i: nat, states: seq<Data<K, V>>, at: seq<nat>, visited: seq<(K, V)>)
    requires |states| == |at| + 1 && |visited| == |at| && i < |data| && data[i].Rec? && Handed(states, at, visited)
    ensures Handed([data] + states, [i] + at, [(data[i].k, data[i].v)] + visited)
  {
  }

  lemma SkipFirst<K, V>(data: Data<K, V>, i: nat, states: seq<Data<K, V>>, at: seq<nat>)
    requires |states| == |at| + 1 && i < |data| && Skipping(states, at, i + 1)
    ensures Skipping([data] + states, [i] + at, i)
  {
    var all, places := [data] + states, [i] + at;
    forall m | 0 <= m <= |places| ensures SkipsTo(all, places, i, m) {
      if m > 0 { assert SkipsTo(states, at, i + 1, m - 1); }
    }
  }

  lemma VisitsEnd<K, V>(ks: Keys<K>, data: Data<K, V>, script: seq<seq<Op<K, V>>>, before: seq<(K, V)>)
    ensures before + Visits(ks, data, |data|, script).0 == before && Visits(ks, data, |data|, script).1 == data
  {
  }

  lemma ClearingBegins<K, V>(ks: Keys<K>, st: State<K, V>)
    requires st.Ok(ks)
    ensures Clearing(st, st, if st.first == null then |st.log| else st.first.pos)
    ensures st.first != null ==> st.first in st.h && !st.h[st.first].r && st.first.pos < |st.log|
  {
    FirstLive(ks, st);
    var at := if st.first == null then |st.log| else st.first.pos;
    forall a | 0 <= a < at ensures st.h[st.log[a]].r { assert st.Contents()[a].Empty?; }
  }

  lemma ClearedStep<K, V>(ks: Keys<K>, st0: State<K, V>, st: State<K, V>)
    requires st0.Ok(ks) && Clearing(st0, st, |st.log|)
    ensures var t := st.(first := null, last := null, size := 0);
      t.Ok(ks) && t.Contents() == seq(|st.log|, _ => Empty)
  {
    var t := st.(first := null, last := null, size := 0);
    forall e | e in t.h ensures t.Pointers(e) { assert st.Pointers(e); }
    var s, s0 := t.Links(), st0.Links();
    forall a | 0 <= a < |s.gone| ensures s.gone[a] && -1 <= s.prev[a] < a { assert StepsBack(s0, a); }
    EmptiedSound(s);
  }

  /** `_f` is the first record that is there. */
  lemma FirstLive<K, V>(ks: Keys<K>, st: State<K, V>)
    requires st.Ok(ks)
    ensures var e := st.first; var to := if e == null then |st.log| else e.pos;
      && (e != null ==> e in st.h && !st.h[e].r && to < |st.log| && st.log[to] == e)
      && forall j | 0 <= j < to :: st.Contents()[j].Empty?
  {
    hide NextLive, PrevLive, CountLive;
    NextSpec(st.Links().gone, 0);
    assert forall j | 0 <= j < |st.log| :: st.Links().gone[j] ==> st.Contents()[j].Empty?;
  }

  /** The link `n` of a record that is there leads to the next one that is. */
  lemma NextLiveEntry<K, V>(ks: Keys<K>, st: State<K, V>, e: Entry<K, V>)
    requires st.Ok(ks) && e in st.h && !st.h[e].r
    ensures var n := st.h[e].n; var to := if n == null then |st.log| else n.pos;
      && e.pos < to <= |st.log| && st.log[e.pos] == e
      && (n != null ==> n in st.h && !st.h[n].r && to < |st.log| && st.log[to] == n)
      && forall j | e.pos < j < to :: st.Contents()[j].Empty?
  {
    hide NextLive, PrevLive, CountLive;
    NextSpec(st.Links().gone, e.pos + 1);
    assert st.Pointers(e) && Joined(st.Links(), e.pos);
    assert forall j | 0 <= j < |st.log| :: st.Links().gone[j] ==> st.Contents()[j].Empty?;
  }

  method SetNext<K, V>(e: Entry<K, V>, n: Entry?<K, V>, ghost all: set<Entry<K, V>>)
    requires e in all
    modifies e`n
    ensures Snap(all) == old(Snap(all))[e := old(Snap(all))[e].(n := n)]
  {
    ghost var h := Snap(all);
    e.n := n;
    assert Snap(all) == h[e := h[e].(n := n)];
  }

  method SetPrev<K, V>(e: Entry<K, V>, p: Entry?<K, V>, ghost all: set<Entry<K, V>>)
    requires e in all
    modifies e`p
    ensures Snap(all) == old(Snap(all))[e := old(Snap(all))[e].(p := p)]
  {
    ghost var h := Snap(all);
    e.p := p;
    assert Snap(all) == h[e := h[e].(p := p)];
  }

  method SetRemoved<K, V>(e: Entry<K, V>, ghost all: set<Entry<K, V>>)
    requires e in all
    modifies e`r
    ensures Snap(all) == old(Snap(all))[e := old(Snap(all))[e].(r := true)]
  {
    ghost var h := Snap(all);
    e.r := true;
    assert Snap(all) == h[e := h[e].(r := true)];
  }

  method SetValue<K, V>(e: Entry<K, V>, v: V, ghost all: set<Entry<K, V>>)
    requires e in all
    modifies e`v
    ensures Snap(all) == old(Snap(all))[e := old(Snap(all))[e].(v := v)]
  {
    ghost var h := Snap(all);
    e.v := v;
    assert Snap(all) == h[e := h[e].(v := v)];
  }

  method LinkEntry<K, V>(r: Entry?<K, V>, a: Entry<K, V>, ghost all: set<Entry<K, V>>)
    requires a !in all && a.p == r && a.n == null && !a.r && (r == null || r in all)
    modifies all`n
    ensures Snap(all + {a}) == Linkings(old(Snap(all)), r, a, old(a.v))
  {
    if r != null { SetNext(r, a, all); }
    assert Snap(all + {a}) == Snap(all)[a := Cell(a.v, r, null, false)];
  }

  method EraseEntry<K, V>(r: Entry<K, V>, ghost all: set<Entry<K, V>>)
    requires r in all && (r.p == null || r.p in all)
    modifies all`n, all`p, all`r
    ensures Snap(all) == Erasings(old(Snap(all)), r)
  {
    SetRemoved(r, all);
    if r.p != null {
      SetNext(r.p, null, all);
      SetPrev(r, null, all);
    }
  }

  method UnlinkEntry<K, V>(r: Entry<K, V>, ghost all: set<Entry<K, V>>)
    requires r in all && (r.p == null || r.p in all) && (r.n == null || r.n in all)
    modifies all`n, all`p, all`r
    ensures Snap(all) == Unlinkings(old(Snap(all)), r)
  {
    var o, a := r.n, r.p;
    SetRemoved(r, all);
    if a != null { SetNext(a, o, all); }
    if o != null { SetPrev(o, a, all); }
  }

  lemma IndexFinds<K(!new), V>(ks: Keys<K>, st: State<K, V>, k: K)
    requires KeysOk(ks) && st.InPlace() && st.Indexed(ks) && ks.fast(k).Some?
    ensures var f, i := ks.fast(k).value, Find(ks, st.Contents(), k);
      if f in st.index then st.index[f] in st.h && i == st.index[f].pos < |st.log| else i == |st.log|
  {
    hide Find;
    var f, d := ks.fast(k).value, st.Contents();
    var i := if f in st.index then st.index[f].pos else |st.log|;
    forall j | 0 <= j < i ensures d[j].Rec? ==> !Matches(ks, d[j].k, k) {
      assert st.log[j] in st.h;
    }
    FindIs(ks, d, k, i);
  }

  class Collection<K(==,!new), V> {
    const ks: Keys<K>
    var index: map<string, Entry<K, V>>
    var first: Entry?<K, V>
    var last: Entry?<K, V>
    var size: int
    /** All records ever made, in insertion order. */
    ghost var log: seq<Entry<K, V>>
    ghost var all: set<Entry<K, V>>

    ghost function Now(): State<K, V>
      reads this, all
    {
      State(log, Snap(all), first, last, index, size)
    }

    ghost predicate Valid()
      reads this, all
    {
      KeysOk(ks) && Now().Ok(ks)
    }

    ghost function Contents(): (d: Data<K, V>)
      requires Valid()
      reads this, all
      ensures |d| == |log|
    {
      Now().Contents()
    }

    ghost function Gone(): (g: seq<bool>)
      requires Valid()
      reads this, all
      ensures |g| == |log|
    {
      Now().Links().gone
    }

    constructor (ks: Keys<K>)
      requires KeysOk(ks)
      ensures Valid() && Contents() == [] && all == {} && this.ks == ks
    {
      this.ks := ks;
      index, first, last, size, log, all := map[], null, null, 0, [], {};
    }

    /** `getEntry` */
    method GetEntry(k: K) returns (e: Entry?<K, V>)
      requires Valid()
      ensures var i := Find(ks, Contents(), k);
        if i == |log| then e == null else e in all && e == log[i] && e.pos == i && !e.r
    {
      hide Find;
      var f := ks.fast(k);
      if f.Some? {
        e := if f.value in index then index[f.value] else null;
        IndexFinds(ks, Now(), k);
      } else {
        e := SearchEntry(k);
      }
    }

    /** The linear search of `getEntry` for a key that is a frozen object. */
    method SearchEntry(k: K) returns (e: Entry?<K, V>)
      requires Valid() && ks.fast(k) == None
      ensures var i := Find(ks, Contents(), k);
        if i == |log| then e == null else e in all && e == log[i] && e.pos == i && !e.r
    {
      ghost var st, d := Now(), Contents();
      e := first;
      FirstLive(ks, st);
      hide State.Ok, State.InPlace, KeysOk, Find;
      ghost var at := if e == null then |log| else e.pos;
      while e != null && !ks.loose(e.k, k)
        invariant if e == null then at == |log| else e in all && !e.r && at == e.pos < |log| && log[at] == e
        invariant forall j | 0 <= j < at :: d[j].Rec? ==> !Matches(ks, d[j].k, k)
        decreases |log| - at
      {
        NextLiveEntry(ks, st, e);
        e := e.n;
        at := if e == null then |log| else e.pos;
      }
      FindIs(ks, d, k, at);
    }

    /** `def` */
    method Def(k: K, v: V)
      requires Valid()
      modifies this, all
      ensures Valid() && Contents() == Applied(ks, old(Contents()), SetOp(k, v))
      ensures var was, i := old(Contents()), Find(ks, old(Contents()), k);
        && |Contents()| == |was| + (if i == |was| then 1 else 0)
        && Contents()[i] == Rec(if i < |was| then was[i].k else k, v)
        && forall j | 0 <= j < |was| && j != i :: Contents()[j] == was[j]
      ensures old(log) <= log && fresh(all - old(all)) && old(all) <= all
    {
      hide State.Ok, State.Contents, State.InPlace, KeysOk, Find;
      var a := GetEntry(k);
      if a != null {
        OverwriteStep(ks, Now(), a, v);
        SetValue(a, v, all);
      } else {
        DefNew(k, v);
      }
    }

    /** The branch of `def` for a key that is not there. */
    method DefNew(k: K, v: V)
      requires Valid() && Find(ks, Contents(), k) == |log|
      modifies this, all
      ensures Valid() && Contents() == old(Contents()) + [Rec(k, v)]
      ensures old(log) <= log && fresh(all - old(all)) && old(all) <= all
    {
      ghost var st := Now();
      hide State.Ok, State.Contents, State.InPlace, KeysOk, Find, Linkings;
      var a := new Entry(ks.fast(k), k, v, last, |log|);
      assert a !in all;
      AppendStep(ks, st, a, v);
      Link(a);
      assert Now() == st.Append(a, v);
    }

    /** The writes of `def` for a new record. */
    method Link(a: Entry<K, V>)
      requires a !in all && Now().Here(last) && a.p == last && a.n == null && !a.r
      modifies this, all`n
      ensures Snap(all) == Linkings(old(Snap(all)), old(last), a, old(a.v)) && all == old(all) + {a}
      ensures log == old(log) + [a] && last == a && first == if old(first) == null then a else old(first)
      ensures size == old(size) + 1 && index == if a.i.Some? then old(index)[a.i.value := a] else old(index)
    {
      assert last == null || last in all;
      hide *;
      LinkEntry(last, a, all);
      LinkEnds(a);
      log, all := log + [a], all + {a};
    }

    method LinkEnds(a: Entry<K, V>)
      modifies this`first, this`last, this`size, this`index
      ensures last == a && first == if old(first) == null then a else old(first)
      ensures size == old(size) + 1 && index == if a.i.Some? then old(index)[a.i.value := a] else old(index)
    {
      last := a;
      if first == null { first := a; }
      size := size + 1;
      if a.i.Some? { index := index[a.i.value := a]; }
    }

    /** The writes of `delete`. */
    method Unlink(r: Entry<K, V>)
      requires r in all && Now().Pointers(r)
      modifies this`first, this`last, this`size, this`index, all`n, all`p, all`r
      ensures Snap(all) == Unlinkings(old(Snap(all)), r)
      ensures first == (if old(first) == r then old(r.n) else old(first))
      ensures last == (if old(last) == r then old(r.p) else old(last))
      ensures size == old(size) - 1 && index == if r.i.Some? then old(index) - {r.i.value} else old(index)
    {
      assert (r.p == null || r.p in all) && (r.n == null || r.n in all);
      hide *;
      var o, a := r.n, r.p;
      UnlinkEntry(r, all);
      UnlinkEnds(r, o, a);
    }

    method UnlinkEnds(r: Entry<K, V>, o: Entry?<K, V>, a: Entry?<K, V>)
      modifies this`first, this`last, this`size, this`index
      ensures first == (if old(first) == r then o else old(first))
      ensures last == (if old(last) == r then a else old(last))
      ensures size == old(size) - 1 && index == if r.i.Some? then old(index) - {r.i.value} else old(index)
    {
      if r.i.Some? { index := index - {r.i.value}; }
      if first == r { first := o; }
      if last == r { last := a; }
      size := size - 1;
    }

    /** `delete` */
    method Delete(k: K) returns (found: bool)
      requires Valid()
      modifies this, all
      ensures Valid() && Contents() == Applied(ks, old(Contents()), DeleteOp(k)) && log == old(log) && all == old(all)
      ensures found <==> Find(ks, old(Contents()), k) < |old(log)|
      ensures var was, i := old(Contents()), Find(ks, old(Contents()), k);
        && |Contents()| == |was| && (i < |was| ==> Contents()[i] == Empty)
        && forall j | 0 <= j < |was| && j != i :: Contents()[j] == was[j]
    {
      hide Collection.Valid, Collection.Contents, Find;
      var r := GetEntry(k);
      if r != null { DeleteEntry(r); }
      found := r != null;
    }

    method DeleteEntry(r: Entry<K, V>)
      requires Valid() && r in all && !r.r && r.pos < |log|
      modifies this, all
      ensures Valid() && Contents() == old(Contents())[r.pos := Empty] && log == old(log) && all == old(all)
    {
      hide State.Ok, State.InPlace, State.Contents, KeysOk, Unlinkings;
      ghost var st := Now();
      DeleteStep(ks, st, r);
      Unlink(r);
      assert Now() == st.Unlink(r);
    }

    /** The loop of `clear`. */
    method EraseAll(ghost st: State<K, V>)
      requires Valid() && st == Now()
      modifies this`index, all`n, all`p, all`r
      ensures Clearing(st, Now(), |log|)
    {
      hide State.Ok, State.InPlace, State.Contents, Clearing, KeysOk;
      ClearingBegins(ks, st);
      var r := first;
      while r != null
        invariant Clearing(st, Now(), if r == null then |log| else r.pos)
        invariant r != null ==> r in all && !st.h[r].r && r.pos < |log|
        decreases if r == null then 0 else |log| - r.pos
      {
        r := EraseRound(r, st);
      }
    }

    method EraseRound(r: Entry<K, V>, ghost st: State<K, V>) returns (n: Entry?<K, V>)
      requires st.Ok(ks) && r in all && r in st.h && !st.h[r].r && Clearing(st, Now(), r.pos)
      modifies this`index, all`n, all`p, all`r
      ensures Clearing(st, Now(), if n == null then |log| else n.pos)
      ensures n != null ==> n in all && n in st.h && !st.h[n].r && r.pos < n.pos < |log|
    {
      hide State.Ok, State.InPlace, State.Contents, Clearing, Erasings;
      ClearStep(ks, st, Now(), r);
      EraseEntry(r, all);
      if r.i.Some? { index := index - {r.i.value}; }
      n := r.n;
    }

    /** `clear` */
    method Clear()
      requires Valid()
      modifies this, all
      ensures Valid() && Contents() == Applied(ks, old(Contents()), ClearOp) && log == old(log) && all == old(all)
      ensures |Contents()| == |old(Contents())| && forall j | 0 <= j < |Contents()| :: Contents()[j] == Empty
    {
      hide State.Ok, State.InPlace, State.Contents, State.Links, Clearing, KeysOk;
      ghost var st := Now();
      EraseAll(st);
      ClearedStep(ks, st, Now());
      first, last, size := null, null, 0;
    }

    method Apply(op: Op<K, V>)
      requires Valid()
      modifies this, all
      ensures Valid() && Contents() == Applied(ks, old(Contents()), op)
      ensures old(all) <= all && fresh(all - old(all))
    {
      hide State.Ok, State.Contents, KeysOk;
      match op
      case SetOp(k, v) => Def(k, v);
      case DeleteOp(k) => var _ := Delete(k);
      case ClearOp => Clear();
    }

    method ApplyAll(ops: seq<Op<K, V>>)
      requires Valid()
      modifies this, all
      ensures Valid() && Contents() == AppliedAll(ks, old(Contents()), ops)
      ensures old(all) <= all && fresh(all - old(all))
    {
      hide State.Ok, State.Contents, KeysOk, Applied;
      var k := 0;
      while k < |ops|
        invariant 0 <= k <= |ops| && Valid() && old(all) <= all && fresh(all - old(all))
        invariant AppliedAll(ks, Contents(), ops[k..]) == AppliedAll(ks, old(Contents()), ops)
      {
        Apply(ops[k]);
        k := k + 1;
      }
    }

    /** `for (; n && n.r; ) n = n.p` */
    method StepBack(from: Entry<K, V>) returns (n: Entry?<K, V>)
      requires Valid() && from in all
      ensures from.pos < |log| && Pos(n) == PrevLive(Gone(), from.pos + 1)
      ensures n != null ==> n in all && !n.r
    {
      hide KeysOk;
      ghost var st := Now();
      ghost var g := st.Links().gone;
      n := from;
      assert from.pos < |log|;
      hide State.Ok, State.Links, State.InPlace, PrevLive;
      while n != null && n.r
        invariant n != null ==> n in all && n.pos < |log|
        invariant PrevLive(g, Pos(n) + 1) == PrevLive(g, from.pos + 1)
        decreases if n == null then 0 else n.pos + 1
      {
        BackStep(ks, st, n);
        n := n.p;
      }
      StoppedAt(ks, st, n);
    }

    /** `n ? n.n : this._f`: the record to visit after record c. */
    method NextEntry(n: Entry?<K, V>, ghost c: int) returns (e: Entry?<K, V>)
      requires Valid() && -1 <= c < |log| && (n != null ==> n in all && !n.r) && Pos(n) == PrevLive(Gone(), c + 1)
      ensures var j := FirstRec(Contents(), c + 1);
        if e == null then j == |log| else e in all && e.pos == j < |log| && Contents()[j] == Rec(e.k, e.v)
    {
      hide State.Ok, State.InPlace, State.Contents, State.Links, KeysOk, PrevLive, FirstRec;
      ForwardStep(ks, Now(), c, n);
      e := if n == null then first else n.n;
      FirstRecIs(Contents(), c + 1, if e == null then |log| else e.pos);
    }

    /** The record that follows l, removed or not, in the order of insertion. */
    method After(l: Entry?<K, V>) returns (e: Entry?<K, V>)
      requires Valid() && (l != null ==> l in all)
      ensures Pos(l) + 1 <= |log| && var j := FirstRec(Contents(), Pos(l) + 1);
        if e == null then j == |log| else e in all && e.pos == j < |log| && Contents()[j] == Rec(e.k, e.v)
    {
      hide Collection.Valid, Collection.Contents, Collection.Gone, PrevLive, FirstRec;
      NoneBefore<K, V>(Gone());
      e := l;
      if e != null { e := StepBack(e); }
      e := NextEntry(e, Pos(l));
    }

    /** A call of the callback at record e, which makes the calls ops, and the step back from e. */
    method CallBack(e: Entry<K, V>, ops: seq<Op<K, V>>) returns (n: Entry?<K, V>)
      requires Valid() && e in all
      modifies this, all
      ensures Valid() && Contents() == AppliedAll(ks, old(Contents()), ops) && |Contents()| == |log|
      ensures old(all) <= all && fresh(all - old(all)) && (n != null ==> n in all && !n.r)
      ensures e.pos < |log| && Pos(n) == PrevLive(Gone(), e.pos + 1)
    {
      hide State.Ok, State.Contents, KeysOk;
      ApplyAll(ops);
      n := StepBack(e);
    }

    /** `forEach`, for a callback whose k-th call makes the calls script[k] on this map. */
    method ForEach(script: seq<seq<Op<K, V>>>) returns (calls: seq<(K, V)>)
      requires Valid()
      modifies this, all
      ensures Valid() && var (visited, data) := Visits(ks, old(Contents()), 0, script);
        calls == visited && Contents() == data
    {
      hide *;
      calls := [];
      var n: Entry?<K, V> := null;
      var rest := script;
      ghost var c := -1;
      NoneBefore<K, V>(Gone());
      ghost var total := Visits(ks, Contents(), 0, script);
      assert calls + total.0 == total.0;
      while true
        invariant Valid() && old(all) <= all && fresh(all - old(all))
        invariant -1 <= c < |log| && (n != null ==> n in all && !n.r) && Pos(n) == PrevLive(Gone(), c + 1)
        invariant var v := Visits(ks, Contents(), c + 1, rest); calls + v.0 == total.0 && v.1 == total.1
        decreases |rest|, |log| - c
      {
        n := NextEntry(n, c);
        VisitsSkip(ks, Contents(), c + 1, rest);
        if n == null {
          VisitsEnd(ks, Contents(), rest, calls);
          return;
        }
        c := n.pos;
        VisitsAt(ks, Contents(), c, rest, calls);
        calls := calls + [(n.k, n.v)];
        n := CallBack(n, if rest == [] then [] else rest[0]);
        rest := if rest == [] then [] else rest[1..];
      }
    }
  }

  /** Sections 23.1.5.1 and 23.1.5.2 of ECMA-262: a map iterator is at the index it examines next, until it has once
      found none. */
  datatype Progress = Examining(next: nat) | Exhausted

  function Step<K, V>(data: Data<K, V>, at: Progress): (r: (Progress, Option<(K, V)>)) {
    if at == Exhausted || at.next > |data| then (Exhausted, None)
    else
      var j := FirstRec(data, at.next);
      if j == |data| then (Exhausted, None) else (Examining(j + 1), Some((data[j].k, data[j].v)))
  }

  datatype Turn<K, V> = Take | Do(op: Op<K, V>)

  /** What an iterator hands out when its takes and the calls on the map come in any order. */
  function Taken<K, V>(ks: Keys<K>, data: Data<K, V>, at: Progress, turns: seq<Turn<K, V>>): seq<Option<(K, V)>>
    decreases |turns|
  {
    if turns == [] then []
    else match turns[0]
      case Take => var (at', x) := Step(data, at); [x] + Taken(ks, data, at', turns[1..])
      case Do(op) => Taken(ks, Applied(ks, data, op), at, turns[1..])
  }

  /** The iterator of `setStrong`. */
  class MapIterator<K(==,!new), V> {
    var t: Collection?<K, V>
    var l: Entry?<K, V>

    ghost predicate Over(c: Collection<K, V>)
      reads this, c
    {
      t != null ==> t == c && (l != null ==> l in c.all)
    }

    ghost function At(): Progress
      reads this
    {
      if t == null then Exhausted else Examining(Pos(l) + 1)
    }

    constructor (c: Collection<K, V>)
      ensures Over(c) && At() == Examining(0)
    {
      t, l := c, null;
    }

    method Next(ghost c: Collection<K, V>) returns (r: Option<(K, V)>)
      requires Over(c) && c.Valid()
      modifies this
      ensures Over(c) && (At(), r) == Step(c.Contents(), old(At()))
      ensures r.Some? ==>
        old(At()).Examining? && At().Examining? && old(At()).next < At().next <= |c.Contents()|
          && c.Contents()[At().next - 1] == Rec(r.value.0, r.value.1)
          && AllEmpty(c.Contents(), old(At()).next, At().next - 1)
      ensures r.None? ==>
        At() == Exhausted && (old(At()).Examining? ==> AllEmpty(c.Contents(), old(At()).next, |c.Contents()|))
    {
      hide Collection.Valid, Collection.Contents, FirstRec, AllEmpty;
      if t == null { return None; }
      ghost var data := c.Contents();
      if old(At()).next <= |data| { FirstRecSkips(data, old(At()).next); }
      var e := t.After(l);
      l := e;
      if e != null {
        r := Some((e.k, e.v));
      } else {
        t := null;
        r := None;
      }
    }
  }

  /** The calls on the map before the m-th take. */
  function CallsBefore<K, V>(turns: seq<Turn<K, V>>, m: nat): seq<Op<K, V>> {
    if turns == [] then []
    else match turns[0]
      case Take => if m == 0 then [] else CallsBefore(turns[1..], m - 1)
      case Do(op) => [op] + CallsBefore(turns[1..], m)
  }

  /** All the calls on the map. */
  function AllCalls<K, V>(turns: seq<Turn<K, V>>): seq<Op<K, V>> {
    if turns == [] then []
    else match turns[0]
      case Take => AllCalls(turns[1..])
      case Do(op) => [op] + AllCalls(turns[1..])
  }

  lemma CallsOn<K, V>(ks: Keys<K>, data: Data<K, V>, turns: seq<Turn<K, V>>)
    requires turns != []
    ensures AppliedAll(ks, data, AllCalls(turns)) ==
      AppliedAll(ks, if turns[0].Do? then Applied(ks, data, turns[0].op) else data, AllCalls(turns[1..]))
  {
    if turns[0].Do? { OneBefore(ks, data, turns[0].op, AllCalls(turns[1..])); }
  }

  /** Take m of an iterator that starts at next. */
  ghost predicate TakeIs<K, V>(ks: Keys<K>, data: Data<K, V>, next: nat, turns: seq<Turn<K, V>>,
                               taken: seq<Option<(K, V)>>, at: seq<nat>, m: nat)
    requires m < |taken|
  {
    var s := AppliedAll(ks, data, CallsBefore(turns, m));
    var from := if 0 < m <= |at| then at[m - 1] + 1 else next;
    if m < |at| then
      && taken[m].Some? && from <= at[m] < |s| && s[at[m]] == Rec(taken[m].value.0, taken[m].value.1)
      && AllEmpty(s, from, at[m])
    else taken[m].None? && (m == |at| ==> AllEmpty(s, from, |s|))
  }

  /** An iterator hands out, at ever later places, what the records hold at the time of the take, and passes over empty
      records only; once it has found none it never finds one again. */
  lemma {:induction false} TakenHold<K, V>(ks: Keys<K>, data: Data<K, V>, next: nat, turns: seq<Turn<K, V>>)
    returns (at: seq<nat>)
    requires next <= |data|
    ensures var taken := Taken(ks, data, Examining(next), turns);
      |at| <= |taken| && forall m | 0 <= m < |taken| :: TakeIs(ks, data, next, turns, taken, at, m)
    decreases |turns|
  {
    hide Applied, AppliedAll, FirstRec;
    at := [];
    if turns != [] {
      var taken := Taken(ks, data, Examining(next), turns);
      if turns[0].Do? {
        var data' := Applied(ks, data, turns[0].op);
        at := TakenHold(ks, data', next, turns[1..]);
        forall m | 0 <= m < |taken| ensures TakeIs(ks, data, next, turns, taken, at, m) {
          assert TakeIs(ks, data', next, turns[1..], taken, at, m);
          OneBefore(ks, data, turns[0].op, CallsBefore(turns[1..], m));
        }
      } else {
        var j := FirstRec(data, next);
        FirstRecSkips(data, next);
        NoneApplied(ks, data);
        if j == |data| {
          NeverAgain(ks, data, turns[1..]);
        } else {
          var more := TakenHold(ks, data, j + 1, turns[1..]);
          at := [j] + more;
          forall m | 0 <= m < |taken| ensures TakeIs(ks, data, next, turns, taken, at, m) {
            if m > 0 { assert TakeIs(ks, data, j + 1, turns[1..], taken[1..], more, m - 1); }
          }
        }
      }
    }
  }

  lemma OneBefore<K, V>(ks: Keys<K>, data: Data<K, V>, op: Op<K, V>, ops: seq<Op<K, V>>)
    ensures AppliedAll(ks, data, [op] + ops) == AppliedAll(ks, Applied(ks, data, op), ops)
  {
    assert ([op] + ops)[1..] == ops;
  }

  lemma {:induction false} NeverAgain<K, V>(ks: Keys<K>, data: Data<K, V>, turns: seq<Turn<K, V>>)
    ensures forall x | x in Taken(ks, data, Exhausted, turns) :: x.None?
    decreases |turns|
  {
    if turns != [] {
      NeverAgain(ks, if turns[0].Do? then Applied(ks, data, turns[0].op) else data, turns[1..]);
    }
  }

  /** Any interleaving of an iterator's steps with calls on the map it walks. */
  method Interleave<K(==,!new), V>(c: Collection<K, V>, turns: seq<Turn<K, V>>) returns (taken: seq<Option<(K, V)>>)
    requires c.Valid()
    modifies c, c.all
    ensures taken == Taken(c.ks, old(c.Contents()), Examining(0), turns)
    ensures c.Valid() && c.Contents() == AppliedAll(c.ks, old(c.Contents()), AllCalls(turns))
  {
    hide Collection.Valid, Collection.Contents, Step, Applied, AppliedAll, AllCalls;
    var it := new MapIterator(c);
    taken := [];
    ghost var total := Taken(c.ks, c.Contents(), Examining(0), turns);
    assert taken + total == total;
    var k := 0;
    while k < |turns|
      invariant 0 <= k <= |turns| && c.Valid() && it.Over(c) && fresh(it)
      invariant old(c.all) <= c.all && fresh(c.all - old(c.all))
      invariant taken + Taken(c.ks, c.Contents(), it.At(), turns[k..]) == total
      invariant AppliedAll(c.ks, c.Contents(), AllCalls(turns[k..])) ==
        AppliedAll(c.ks, old(c.Contents()), AllCalls(turns))
    {
      CallsOn(c.ks, c.Contents(), turns[k..]);
      ghost var before, data, at := taken, c.Contents(), it.At();
      match turns[k] {
        case Take =>
          var x := it.Next(c);
          taken := taken + [x];
        case Do(op) => c.Apply(op);
      }
      TakenStep(c.ks, data, at, turns[k..], before);
      assert turns[k..][1..] == turns[k + 1..];
      k := k + 1;
    }
    assert taken + [] == taken;
    NoCalls(c.ks, c.Contents());
  }

  lemma NoCalls<K, V>(ks: Keys<K>, data: Data<K, V>)
    ensures AppliedAll(ks, data, AllCalls([])) == data
  {
  }

  lemma TakenStep<K, V>(ks: Keys<K>, data: Data<K, V>, at: Progress, turns: seq<Turn<K, V>>, before: seq<Option<(K,
      V)>>)
    requires turns != []
    ensures before + Taken(ks, data, at, turns) == match turns[0]
      case Take => before + [Step(data, at).1] + Taken(ks, data, Step(data, at).0, turns[1..])
      case Do(op) => before + Taken(ks, Applied(ks, data, op), at, turns[1..])
  {
  }

  lemma NoneBefore<K, V>(g: seq<bool>)
    ensures PrevLive(g, 0) == Pos<K, V>(null)
  {
  }

  lemma VisitsAt<K, V>(ks: Keys<K>, data: Data<K, V>, i: nat, script: seq<seq<Op<K, V>>>, before: seq<(K, V)>)
    requires i < |data| && data[i].Rec?
    ensures var v := Visits(ks, data, i, script);
      var ops, rest := if script == [] then [] else script[0], if script == [] then [] else script[1..];
      var v' := Visits(ks, AppliedAll(ks, data, ops), i + 1, rest);
      before + v.0 == before + [(data[i].k, data[i].v)] + v'.0 && v.1 == v'.1
      && (script == [] ==> AppliedAll(ks, data, ops) == data)
  {
  }

  lemma StoppedAt<K, V>(ks: Keys<K>, st: State<K, V>, n: Entry?<K, V>)
    requires st.Ok(ks) && (n != null ==> n in st.h && !st.h[n].r)
    ensures Pos(n) + 1 <= |st.log| && PrevLive(st.Links().gone, Pos(n) + 1) == Pos(n)
  {
  }

  lemma {:induction false} FindIs<K, V>(ks: Keys<K>, data: Data<K, V>, k: K, i: nat, from: nat := 0)
    requires from <= i <= |data| && (i < |data| ==> data[i].Rec? && Matches(ks, data[i].k, k))
    requires forall j | from <= j < i :: data[j].Rec? ==> !Matches(ks, data[j].k, k)
    ensures Find(ks, data, k, from) == i
    decreases |data| - from
  {
  }
}
