/** The linked list of chunks that a Readable stream keeps, and how it takes a number of octets from its front. */
module ReadBuffer {
  import opened Options
  import opened Sequences
  import StringDecoder
  import Utf8

  /** The first n octets end in chunk k, after u octets of it. */
  ghost predicate CutIn(chunks: seq<seq<int>>, n: nat, k: nat, u: nat) {
    k < |chunks| && u <= |chunks[k]| && n == |Flat(chunks[..k])| + u
  }

  /** What is before the cut, */
  lemma CutTakes(chunks: seq<seq<int>>, n: nat, k: nat, u: nat, out: seq<int>)
    requires k < |chunks| && u <= |chunks[k]| && out == Flat(chunks[..k]) + chunks[k][..u] && |out| == n
    ensures CutIn(chunks, n, k, u) && n <= |Flat(chunks)| && out == Flat(chunks)[..n]
  {
    hide Flat;
    FlatSplit(chunks, k);
    assert chunks[k] == chunks[k][..u] + chunks[k][u..];
    assert Flat(chunks) == out + (chunks[k][u..] + Flat(chunks[k + 1..]));
  }

  /** and what is left behind it, whether or not the cut is at the end of the chunk. */
  lemma CutLeaves(chunks: seq<seq<int>>, n: nat, k: nat, u: nat)
    requires CutIn(chunks, n, k, u)
    ensures n <= |Flat(chunks)|
    ensures Flat([chunks[k][u..]] + chunks[k + 1..]) == Flat(chunks)[n..]
    ensures u == |chunks[k]| ==> Flat(chunks[k + 1..]) == Flat(chunks)[n..]
  {
    hide Flat;
    FlatSplit(chunks, k);
    FlatJoin([chunks[k][u..]], chunks[k + 1..]);
    FlatOne(chunks[k][u..]);
    assert chunks[k] == chunks[k][..u] + chunks[k][u..];
    assert Flat(chunks) == (Flat(chunks[..k]) + chunks[k][..u]) + (chunks[k][u..] + Flat(chunks[k + 1..]));
  }

  lemma CutIs(chunks: seq<seq<int>>, n: nat, k: nat, u: nat, left: seq<seq<int>>)
    requires CutIn(chunks, n, k, u)
    requires left == if u == |chunks[k]| then chunks[k + 1..] else [chunks[k][u..]] + chunks[k + 1..]
    ensures n <= |Flat(chunks)| && Flat(left) == Flat(chunks)[n..]
    ensures NoneEmpty(chunks) ==> left == Dropped(chunks, n)
  {
    hide Flat, Dropped, NoneEmpty;
    CutLeaves(chunks, n, k, u);
    if NoneEmpty(chunks) { CutDrops(chunks, n, k, u); }
  }

  lemma InChunk(chunks: seq<seq<int>>, n: nat, k: nat, u: nat)
    requires CutIn(chunks, n, k, u)
    ensures k < |chunks| && u <= |chunks[k]|
  {
  }

  ghost predicate NoneEmpty(chunks: seq<seq<int>>) {
    forall i | 0 <= i < |chunks| :: chunks[i] != []
  }

  /** The chunks without their first n octets. */
  ghost function Dropped(chunks: seq<seq<int>>, n: nat): seq<seq<int>> {
    if chunks == [] then []
    else if n < |chunks[0]| then [chunks[0][n..]] + chunks[1..]
    else Dropped(chunks[1..], n - |chunks[0]|)
  }

  lemma {:induction false} DroppedIs(chunks: seq<seq<int>>, n: nat)
    requires n <= |Flat(chunks)|
    ensures Flat(Dropped(chunks, n)) == Flat(chunks)[n..]
    ensures NoneEmpty(chunks) ==> NoneEmpty(Dropped(chunks, n))
    ensures NoneEmpty(chunks) && n == |Flat(chunks)| ==> Dropped(chunks, n) == []
    ensures NoneEmpty(chunks) && n == 0 ==> Dropped(chunks, n) == chunks
  {
    hide Flat;
    if chunks == [] {
      NoChunks(chunks);
    } else {
      WholeHead(chunks, |chunks[0]|);
      if n < |chunks[0]| {
        CutLeaves(chunks, n, 0, n) by { NoChunks(chunks); }
      } else {
        DroppedIs(chunks[1..], n - |chunks[0]|);
      }
    }
  }

  /** A cut after u octets of chunk k drops the chunks before it, and so much of chunk k. */
  lemma {:induction false} CutDrops(chunks: seq<seq<int>>, n: nat, k: nat, u: nat)
    requires CutIn(chunks, n, k, u) && NoneEmpty(chunks)
    ensures Dropped(chunks, n) ==
      if u == |chunks[k]| then chunks[k + 1..] else [chunks[k][u..]] + chunks[k + 1..]
  {
    hide Flat;
    NoChunks(chunks);
    if k == 0 {
      if u == |chunks[0]| { DroppedIs(chunks[1..], 0); }
    } else {
      assert chunks[..k][0] == chunks[0] && chunks[..k][1..] == chunks[1..][..k - 1];
      WholeHead(chunks[..k], |chunks[0]|);
      CutDrops(chunks[1..], n - |chunks[0]|, k - 1, u);
    }
  }

  class Node {
    var data: seq<int>
    var next: Node?

    constructor (data: seq<int>, next: Node?)
      ensures this.data == data && this.next == next
    {
      this.data, this.next := data, next;
    }
  }

  ghost function DataOf(nodes: seq<Node>): (c: seq<seq<int>>)
    reads nodes`data
    ensures |c| == |nodes| && forall i | 0 <= i < |nodes| :: c[i] == nodes[i].data
  {
    if nodes == [] then [] else DataOf(nodes[..|nodes| - 1]) + [nodes[|nodes| - 1].data]
  }

  lemma DataJoin(a: seq<Node>, b: seq<Node>)
    ensures DataOf(a + b) == DataOf(a) + DataOf(b)
  {
  }

  lemma DataOne(n: Node)
    ensures DataOf([n]) == [n.data]
  {
  }

  class BufferList {
    var head: Node?
    var tail: Node?
    var length: int
    /** The nodes in order. */
    ghost var nodes: seq<Node>

    ghost predicate Valid()
      reads this, nodes
    {
      Linked() && length == |nodes|
    }

    /** head, tail and the links agree with the nodes. */
    ghost predicate Linked()
      reads `head, `tail, `nodes, nodes`next
    {
      && (forall i, j | 0 <= i < j < |nodes| :: nodes[i] != nodes[j])
      && (forall i | 0 <= i < |nodes| - 1 :: nodes[i].next == nodes[i + 1])
      && if nodes == [] then head == null && tail == null
         else head == nodes[0] && tail == nodes[|nodes| - 1] && tail.next == null
    }

    ghost function Chunks(): (c: seq<seq<int>>)
      reads `nodes, nodes`data
      ensures |c| == |nodes| && forall i | 0 <= i < |nodes| :: c[i] == nodes[i].data
    {
      DataOf(nodes)
    }

    constructor ()
      ensures Valid() && nodes == []
    {
      head, tail, length, nodes := null, null, 0, [];
    }

    /** `push` */
    method Push(data: seq<int>)
      requires Valid()
      modifies this, nodes
      ensures Valid() && Chunks() == old(Chunks()) + [data] && fresh(nodes[|nodes| - 1])
        && nodes[..|nodes| - 1] == old(nodes)
    {
      hide DataOf;
      var e := new Node(data, null);
      if length > 0 { tail.next := e; } else { head := e; }
      tail := e;
      length := length + 1;
      DataJoin(nodes, [e]);
      DataOne(e);
      nodes := nodes + [e];
    }

    /** `unshift` */
    method Unshift(data: seq<int>)
      requires Valid()
      modifies this
      ensures Valid() && Chunks() == [data] + old(Chunks()) && fresh(nodes[0]) && nodes[1..] == old(nodes)
    {
      hide DataOf;
      var e := new Node(data, head);
      if length == 0 { tail := e; }
      head := e;
      length := length + 1;
      DataJoin([e], nodes);
      DataOne(e);
      nodes := [e] + nodes;
    }

    /** `shift` */
    method Shift() returns (r: Option<seq<int>>)
      requires Valid()
      modifies this
      ensures Valid()
      ensures old(nodes) == [] ==> r == None && nodes == []
      ensures old(nodes) != [] ==>
        r == Some(old(head.data)) && nodes == old(nodes)[1..] && Chunks() == old(Chunks())[1..]
      ensures old(NoneEmpty(Chunks())) ==> NoneEmpty(Chunks())
    {
      if length == 0 { return None; }
      r := Some(head.data);
      if length == 1 { head, tail := null, null; } else { head := head.next; }
      length := length - 1;
      nodes := nodes[1..];
    }

    /** `clear` */
    method Clear()
      modifies this
      ensures Valid() && nodes == []
    {
      head, tail, length, nodes := null, null, 0, [];
    }

    lemma EmptyList()
      ensures nodes == [] ==> Chunks() == []
    {
    }

    lemma HeadIs()
      requires Linked()
      ensures nodes != [] ==> head == nodes[0]
    {
    }

    lemma NextOf(k: nat)
      requires Linked() && k < |nodes|
      ensures nodes[k].next == if k + 1 < |nodes| then nodes[k + 1] else null
    {
    }

    /** The node n of place k becomes the head: the nodes before it go, and u octets of its own. */
    method CutAt(n: Node, ghost k: nat, u: nat)
      requires Linked() && k < |nodes| && n == nodes[k] && u < |n.data|
      modifies `head, `nodes, n`data
      ensures Linked() && nodes == old(nodes)[k..]
      ensures Chunks() == [old(Chunks())[k][u..]] + old(Chunks())[k + 1..]
    {
      head := n;
      n.data := n.data[u..];
      nodes := nodes[k..];
    }

    /** The nodes up to n, of place k, go. */
    method CutBehind(n: Node, ghost k: nat)
      requires Linked() && k < |nodes| && n == nodes[k]
      modifies `head, `tail, `nodes
      ensures Linked() && nodes == old(nodes)[k + 1..] && Chunks() == old(Chunks())[k + 1..]
    {
      NextOf(k);
      if n.next != null { head := n.next; } else { head, tail := null, null; }
      nodes := nodes[k + 1..];
    }

    /** The end of both copy methods: the cut is in node r, of place k, after c octets; i nodes before it have been
        counted. */
    method Finish(r: Node, c: nat, i: nat, ghost k: nat, ghost n: nat)
      requires Valid() && k < |nodes| && r == nodes[k] && CutIn(Chunks(), n, k, c) && i == k
      modifies this, r`data
      ensures Valid() && n <= |Flat(old(Chunks()))| && Flat(Chunks()) == Flat(old(Chunks()))[n..]
      ensures |nodes| <= |old(nodes)| && nodes == old(nodes)[|old(nodes)| - |nodes|..]
      ensures old(NoneEmpty(Chunks())) ==> Chunks() == Dropped(old(Chunks()), n)
    {
      hide Flat, Linked, CutIn, NoneEmpty, Dropped, Chunks;
      ghost var chunks := Chunks();
      InChunk(chunks, n, k, c);
      var count := i;
      if c == |r.data| {
        count := count + 1;
        CutBehind(r, k);
      } else {
        CutAt(r, k, c);
      }
      length := length - count;
      CutIs(chunks, n, k, c, Chunks());
    }

    /** One round of `copyFromBuffer`: t octets are still wanted. */
    method TakeChunk(r: Node, out: array<int>, t: nat, i: nat, ghost k: nat) returns (t': nat, done: bool)
      requires Valid() && k < |nodes| && r == nodes[k] && i == k
      requires 0 < t <= out.Length && out.Length - t == |Flat(Chunks()[..k])|
        && out[..out.Length - t] == Flat(Chunks()[..k])
      modifies this, r`data, out
      ensures Valid() && done == (t' == 0)
      ensures !done ==> nodes == old(nodes) && Chunks() == old(Chunks()) && t' <= t
      ensures !done ==>
        out.Length - t' == |Flat(Chunks()[..k + 1])| && out[..out.Length - t'] == Flat(Chunks()[..k + 1])
      ensures done ==> |nodes| <= |old(nodes)| && nodes == old(nodes)[|old(nodes)| - |nodes|..]
      ensures done ==> out.Length <= |Flat(old(Chunks()))|
      ensures done ==>
        out[..] == Flat(old(Chunks()))[..out.Length] && Flat(Chunks()) == Flat(old(Chunks()))[out.Length..]
      ensures done && old(NoneEmpty(Chunks())) ==> Chunks() == Dropped(old(Chunks()), out.Length)
    {
      hide Flat, Linked, Chunks;
      ghost var chunks := Chunks();
      var o := r.data;
      ChunkIs(k);
      var c := if t > |o| then |o| else t;
      FlatSplit(chunks, k);
      CopyTo(o, out, out.Length - t, c);
      t' := t - c;
      done := t' == 0;
      if done {
        assert out[..] == out[..out.Length];
        CutTakes(chunks, out.Length, k, c, out[..]);
        Finish(r, c, i, k, out.Length);
      }
    }

    lemma ChunkIs(k: nat)
      requires k < |nodes|
      ensures k < |Chunks()| == |nodes| && Chunks()[k] == nodes[k].data
    {
    }

    /** Where no node comes next, all chunks are passed. */
    lemma EndsThere(k: nat, n: nat)
      requires Linked() && k < |nodes| && nodes[k].next == null && n <= |Flat(Chunks())|
      ensures n <= |Flat(Chunks()[..k + 1])|
    {
      hide Flat, Chunks;
      NextOf(k);
      ChunkIs(k);
      WholeOf(Chunks(), k + 1);
    }

    /** `copyFromBuffer`, for more than the head holds. */
    method CopyFromBuffer(n: nat) returns (out: array<int>)
      requires Valid() && nodes != [] && |nodes[0].data| < n <= |Flat(Chunks())|
      modifies this, nodes`data
      ensures Valid() && fresh(out) && out[..] == Flat(old(Chunks()))[..n] && Flat(Chunks()) == Flat(old(Chunks()))[n..]
      ensures |nodes| <= |old(nodes)| && nodes == old(nodes)[|old(nodes)| - |nodes|..]
      ensures old(NoneEmpty(Chunks())) ==> Chunks() == Dropped(old(Chunks()), n)
    {
      hide Flat, Linked, Chunks, CutIn;
      ghost var chunks, all := Chunks(), nodes;
      HeadIs();
      out := new int[n](_ => 0);
      var r := head;
      var i := 1;
      var t := n;
      CopyTo(r.data, out, 0, |r.data|);
      t := t - |r.data|;
      ghost var k := 0;
      FirstChunk(chunks);
      while r.next != null
        invariant Linked() && length == |all| && nodes == all && Chunks() == chunks
        invariant k < |all| && r == all[k] && i == k + 1
        invariant 0 < t <= n && n - t == |Flat(chunks[..k + 1])| && out[..n - t] == Flat(chunks[..k + 1])
        decreases |all| - k
      {
        NextOf(k);
        r := r.next;
        k := k + 1;
        var done;
        t, done := TakeChunk(r, out, t, i, k);
        if done {
          assert out[..] == out[..n];
          return;
        }
        i := i + 1;
      }
      EndsThere(k, n);
      assert false;
    }

    /** `copyFromBufferString`, the same for strings. */
    method CopyFromBufferString(n: nat) returns (out: seq<int>)
      requires Valid() && nodes != [] && |nodes[0].data| < n <= |Flat(Chunks())|
      modifies this, nodes`data
      ensures Valid() && out == Flat(old(Chunks()))[..n] && Flat(Chunks()) == Flat(old(Chunks()))[n..]
      ensures |nodes| <= |old(nodes)| && nodes == old(nodes)[|old(nodes)| - |nodes|..]
      ensures old(NoneEmpty(Chunks())) ==> Chunks() == Dropped(old(Chunks()), n)
    {
      hide Flat, Linked, Chunks;
      ghost var chunks, all := Chunks(), nodes;
      HeadIs();
      var r := head;
      var i := 1;
      out := r.data;
      var t := n - |out|;
      ghost var k := 0;
      FirstChunk(chunks);
      while r.next != null
        invariant Linked() && length == |all| && nodes == all && Chunks() == chunks
        invariant k < |all| && r == all[k] && i == k + 1
        invariant 0 < t <= n && n - t == |Flat(chunks[..k + 1])| && out == Flat(chunks[..k + 1])
        decreases |all| - k
      {
        NextOf(k);
        r := r.next;
        k := k + 1;
        var o := r.data;
        var c := if t > |o| then |o| else t;
        FlatSplit(chunks, k);
        if c == |o| { out := out + o; } else { out := out + o[..t]; }
        t := t - c;
        if t == 0 {
          CutTakes(chunks, n, k, c, out);
          Finish(r, c, i, k, n);
          return;
        }
        i := i + 1;
      }
      NextOf(k);
      WholeOf(chunks, k + 1);
      assert false;
    }

    /** `fromListPartial` */
    method FromListPartial(n: nat, hasStrings: bool) returns (r: seq<int>)
      requires Valid() && 0 < n <= |Flat(Chunks())|
      modifies this, nodes`data
      ensures Valid() && r == Flat(old(Chunks()))[..n] && Flat(Chunks()) == Flat(old(Chunks()))[n..]
      ensures |nodes| <= |old(nodes)| && nodes == old(nodes)[|old(nodes)| - |nodes|..]
      ensures old(NoneEmpty(Chunks())) ==> Chunks() == Dropped(old(Chunks()), n)
    {
      hide Flat, Linked, Chunks;
      Started();
      HeadIs();
      ChunkIs(0);
      if n < |head.data| {
        r := PartOfHead(n);
      } else if n == |head.data| {
        WholeHead(Chunks(), n);
        if NoneEmpty(Chunks()) { CutDrops(Chunks(), n, 0, n) by { NoChunks(Chunks()); } }
        var first := Shift();
        r := first.value;
      } else if hasStrings {
        r := CopyFromBufferString(n);
      } else {
        var out := CopyFromBuffer(n);
        r := out[..];
      }
    }

    method PartOfHead(n: nat) returns (r: seq<int>)
      requires Valid() && nodes != [] && n < |nodes[0].data|
      modifies this, nodes`data
      ensures Valid() && n <= |Flat(old(Chunks()))| && r == Flat(old(Chunks()))[..n]
        && Flat(Chunks()) == Flat(old(Chunks()))[n..]
      ensures nodes == old(nodes)
      ensures old(NoneEmpty(Chunks())) ==> Chunks() == Dropped(old(Chunks()), n)
    {
      hide Flat, Linked, Chunks;
      HeadIs();
      ChunkIs(0);
      r := head.data[..n];
      NoChunks(Chunks());
      assert CutIn(Chunks(), n, 0, n);
      if NoneEmpty(Chunks()) { CutDrops(Chunks(), n, 0, n); }
      CutLeaves(Chunks(), n, 0, n);
      CutTakes(Chunks(), n, 0, n, r);
      CutAt(head, 0, n);
    }

    lemma Started()
      requires Flat(Chunks()) != []
      ensures nodes != []
    {
    }

    /** `join("")` and `concat`: the data of all the nodes. */
    method Joined() returns (r: seq<int>)
      requires Valid()
      ensures r == Flat(Chunks())
    {
      hide Flat, Linked, Chunks;
      ghost var chunks := Chunks();
      r := [];
      NoChunks(chunks);
      HeadIs();
      var p := head;
      ghost var k := 0;
      if length == 0 { WholeOf(chunks, 0); return; }
      while p != null
        invariant k <= |nodes| && p == (if k < |nodes| then nodes[k] else null) && r == Flat(chunks[..k])
        decreases |nodes| - k
      {
        ChunkIs(k);
        FlatSplit(chunks, k);
        NextOf(k);
        r := r + p.data;
        p := p.next;
        k := k + 1;
      }
      WholeOf(chunks, k);
      ChunkCount();
    }

    lemma ChunkCount()
      ensures |Chunks()| == |nodes|
    {
    }
  }

  lemma WholeHead(chunks: seq<seq<int>>, n: nat)
    requires chunks != [] && n == |chunks[0]|
    ensures n <= |Flat(chunks)| && Flat(chunks)[..n] == chunks[0] && Flat(chunks)[n..] == Flat(chunks[1..])
  {
    hide Flat;
    FlatSplit(chunks, 0);
    NoChunks(chunks);
  }

  lemma NoChunks(chunks: seq<seq<int>>)
    ensures Flat(chunks[..0]) == []
  {
  }

  lemma WholeOf<E>(s: seq<E>, k: nat)
    ensures k == |s| ==> s[..k] == s
  {
  }

  lemma FirstChunk(chunks: seq<seq<int>>)
    requires chunks != []
    ensures Flat(chunks[..1]) == chunks[0]
  {
  }

  /** `copy`: the first c octets of src go to place at. */
  method CopyTo(src: seq<int>, target: array<int>, at: nat, c: nat)
    requires c <= |src| && at + c <= target.Length
    modifies target
    ensures target[..at] == old(target[..at]) && target[at..at + c] == src[..c]
      && target[..at + c] == old(target[..at]) + src[..c]
  {
    forall i | 0 <= i < c { target[at + i] := src[i]; }
    assert target[..at + c] == target[..at] + target[at..at + c];
  }

  /** A chunk is kept at the end, or at the front; an empty one is not kept. */
  function Queued(chunks: seq<seq<int>>, data: seq<int>, front: bool): seq<seq<int>> {
    if data == [] then chunks else if front then [data] + chunks else chunks + [data]
  }

  /** What a push puts in: the octets, or what the decoder gives out for them. */
  ghost function Pushing(utf8: bool, chunks: seq<seq<int>>, ended: bool, data: seq<int>): seq<int>
    requires Bytes(Flat(chunks)) && Bytes(data)
  {
    if ended || data == [] then []
    else if utf8 then
      StringDecoder.BehindWaits(Flat(chunks));
      StringDecoder.Shown(StringDecoder.Behind(Flat(chunks)), data)
    else data
  }

  /** What the end puts in. */
  ghost function Ending(utf8: bool, chunks: seq<seq<int>>, ended: bool): seq<int> {
    if utf8 && !ended && StringDecoder.Pending(Flat(chunks)) > 0 then [Utf8.REPLACEMENT] else []
  }

  /** What a Readable stream keeps of its buffer. With a decoder, made when the stream is, it holds strings. */
  class ReadState {
    const objectMode: bool
    const list: BufferList
    const decoder: StringDecoder.Utf8Decoder?
    var length: int
    var ended: bool
    var flowing: bool

    ghost predicate Valid()
      reads `length, list, list.nodes
    {
      && list.Valid() && length == (if objectMode then |list.nodes| else |Flat(list.Chunks())|)
      && (!objectMode ==> NoneEmpty(list.Chunks()))
    }

    /** What the decoder writes to. */
    ghost function Decoding(): set<object> {
      if decoder == null then {} else {decoder, decoder.lastChar}
    }

    /** The octets that wait in the decoder after the chunks. */
    ghost predicate Awaits(chunks: seq<seq<int>>)
      reads `ended, Decoding()
    {
      Bytes(Flat(chunks)) && (decoder != null && !ended ==> decoder.Holds(StringDecoder.Behind(Flat(chunks))))
    }

    constructor (objectMode: bool, utf8: bool)
      ensures Valid() && Awaits([]) && fresh(list) && fresh(Decoding()) && list.nodes == []
      ensures this.objectMode == objectMode && (decoder != null <==> utf8) && !ended && !flowing
    {
      hide Flat, StringDecoder.Behind, StringDecoder.Utf8Decoder.Holds, StringDecoder.ShownAll;
      this.objectMode := objectMode;
      list := new BufferList();
      if utf8 {
        var d := new StringDecoder.Utf8Decoder();
        decoder := d;
      } else {
        decoder := null;
      }
      length, ended, flowing := 0, false, false;
      new;
      StringDecoder.NothingShown();
    }

    /** `m`: handed out at once if the stream flows, nothing waits and the call is not made by `_read`; otherwise kept
        at the end, or for `unshift` at the front. */
    method AddChunk(data: seq<int>, front: bool, sync: bool) returns (emitted: Option<seq<int>>)
      requires Valid() && (objectMode || data != [])
      modifies this`length, list, list.nodes
      ensures Valid() && fresh(set n | n in list.nodes && n !in old(list.nodes))
      ensures emitted == if old(flowing && length == 0 && !sync) then Some(data) else None
      ensures emitted.Some? ==> list.Chunks() == old(list.Chunks())
      ensures emitted.None? ==>
        list.Chunks() == if front then [data] + old(list.Chunks()) else old(list.Chunks()) + [data]
    {
      hide Flat, BufferList.Valid, BufferList.Chunks;
      if flowing && length == 0 && !sync {
        return Some(data);
      }
      Keep(data, front);
      return None;
    }

    /** The chunk is kept, and counted in the length. */
    method Keep(data: seq<int>, front: bool)
      requires Valid() && (objectMode || data != [])
      modifies this`length, list, list.nodes
      ensures Valid() && fresh(set n | n in list.nodes && n !in old(list.nodes))
      ensures list.Chunks() == if front then [data] + old(list.Chunks()) else old(list.Chunks()) + [data]
    {
      hide Flat, BufferList.Valid, BufferList.Chunks, NoneEmpty;
      GivenChunk(list.Chunks(), data);
      NoneEmptyGiven(list.Chunks(), data);
      Kept();
      list.ChunkCount();
      length := length + if objectMode then 1 else |data|;
      if front { list.Unshift(data); } else { list.Push(data); }
      list.ChunkCount();
    }

    lemma NoneEmptyGiven(chunks: seq<seq<int>>, data: seq<int>)
      ensures NoneEmpty(chunks) && data != [] ==> NoneEmpty([data] + chunks) && NoneEmpty(chunks + [data])
    {
    }

    lemma GivenChunk(chunks: seq<seq<int>>, data: seq<int>)
      ensures Flat([data] + chunks) == data + Flat(chunks) && Flat(chunks + [data]) == Flat(chunks) + data
    {
      FlatJoin([data], chunks);
      hide Flat;
      FlatPush(chunks, data);
      FlatOne(data);
    }

    /** `push` of a chunk of octets, with what has been pushed before; to push after the end is an error. */
    method Push(data: seq<int>, sync: bool, ghost chunks: seq<seq<int>>) returns (out: seq<int>)
      requires Valid() && !objectMode && Awaits(chunks) && Bytes(data)
      modifies this`length, list, list.nodes, Decoding()
      ensures Valid() && Awaits(if ended || data == [] then chunks else chunks + [data])
      ensures fresh(set n | n in list.nodes && n !in old(list.nodes))
      ensures
        var e := Pushing(decoder != null, chunks, ended, data);
        if e != [] && flowing && old(list.Chunks()) == [] && !sync then out == e && list.Chunks() == []
        else out == [] && list.Chunks() == Queued(old(list.Chunks()), e, false)
    {
      hide Flat, BufferList.Valid, BufferList.Chunks, StringDecoder.Utf8Decoder.Holds, StringDecoder.Shown,
        StringDecoder.Behind, StringDecoder.Settled, StringDecoder.Waits, Valid, Bytes, Utf8.Decoded;
      out := [];
      if |data| == 0 || ended { return; }
      ghost var w := Flat(chunks);
      FlatPush(chunks, data);
      BytesJoin(w, data);
      StringDecoder.BehindWaits(w);
      StringDecoder.SettledOn(w, data);
      var e := data;
      if decoder != null {
        e := decoder.Write(data, StringDecoder.Behind(w));
        if |e| == 0 { return; }
      }
      Waiting();
      var emitted := AddChunk(e, false, sync);
      if emitted.Some? { out := e; }
    }

    /** `unshift` */
    method Unshift(data: seq<int>, sync: bool) returns (out: seq<int>)
      requires Valid() && !objectMode
      modifies this`length, list, list.nodes
      ensures Valid() && fresh(set n | n in list.nodes && n !in old(list.nodes))
      ensures
        if data != [] && flowing && old(list.Chunks()) == [] && !sync then out == data && list.Chunks() == []
        else out == [] && list.Chunks() == Queued(old(list.Chunks()), data, true)
    {
      hide Flat, BufferList.Valid, BufferList.Chunks, Valid;
      out := [];
      if |data| == 0 { return; }
      Waiting();
      var emitted := AddChunk(data, true, sync);
      if emitted.Some? { out := data; }
    }

    /** `push(null)`: what waits in the decoder is kept as a chunk, and the stream has ended. */
    method End(ghost chunks: seq<seq<int>>)
      requires Valid() && !objectMode && Awaits(chunks)
      modifies this`length, this`ended, list, list.nodes, Decoding()
      ensures Valid() && ended && Awaits(chunks) && fresh(set n | n in list.nodes && n !in old(list.nodes))
      ensures list.Chunks() == Queued(old(list.Chunks()), Ending(decoder != null, chunks, old(ended)), false)
    {
      hide Flat, BufferList.Valid, BufferList.Chunks, StringDecoder.Utf8Decoder.Holds, StringDecoder.Shown,
        StringDecoder.Behind, StringDecoder.Pending, Valid, NoneEmpty;
      if ended { return; }
      if decoder != null {
        ghost var w := Flat(chunks);
        StringDecoder.BehindWaits(w);
        StringDecoder.NothingMore(StringDecoder.Behind(w));
        StringDecoder.BehindAgain(w);
        assert StringDecoder.Behind(w) + [] == StringDecoder.Behind(w);
        var n := decoder.End([], StringDecoder.Behind(w));
        assert n == Ending(true, chunks, false);
        if |n| > 0 {
          Keep(n, false);
        }
      }
      ended := true;
    }

    lemma Kept()
      requires Valid()
      ensures list.Valid() && (!objectMode ==> length == |Flat(list.Chunks())|)
    {
    }

    /** `resume`; the reads that follow from it are events of their own. */
    method Resume()
      modifies this`flowing
      ensures flowing
    {
      flowing := true;
    }

    /** `pause` */
    method Pause()
      modifies this`flowing
      ensures !flowing
    {
      flowing := false;
    }

    /** Outside object mode the length is 0 exactly if no chunk is kept. */
    lemma Waiting()
      requires Valid() && !objectMode
      ensures length == |Flat(list.Chunks())| && NoneEmpty(list.Chunks()) && (length == 0 <==> list.Chunks() == [])
    {
      hide Flat;
      NoChunks(list.Chunks());
      if list.Chunks() != [] { WholeHead(list.Chunks(), |list.Chunks()[0]|); }
    }

    /** `howMuchToRead`; None stands for NaN. */
    function HowMuchToRead(t: Option<int>): int
      requires list.Valid()
      reads this, list, list.nodes
    {
      if (t.Some? && t.value <= 0) || (length == 0 && ended) then 0
      else if objectMode then 1
      else if t.None? then if flowing && length != 0 && list.head != null then |list.head.data| else length
      else if t.value <= length then t.value
      else if ended then length else 0
    }

    /** Outside object mode, where something waits there is a head, and its chunk is what comes first. */
    lemma HeadFirst()
      requires Valid() && !objectMode && length > 0
      ensures list.head != null && list.Chunks() != [] && list.head.data == list.Chunks()[0] != []
      ensures |list.Chunks()[0]| <= |Flat(list.Chunks())|
      ensures Flat(list.Chunks())[..|list.Chunks()[0]|] == list.Chunks()[0]
    {
      hide Flat;
      if list.nodes == [] {
        list.EmptyList();
        FlatNothing();
      } else {
        list.ChunkIs(0);
        list.HeadIs();
        WholeHead(list.Chunks(), |list.Chunks()[0]|);
      }
    }

    lemma Enough(t: Option<int>)
      requires Valid() && !objectMode
      ensures 0 <= HowMuchToRead(t) <= length
    {
      hide Flat;
      if list.nodes != [] { WholeHead(list.Chunks(), |list.Chunks()[0]|); }
    }

    /** `fromList` (`C`): None stands for null. */
    method FromList(n: nat) returns (r: Option<seq<int>>)
      requires Valid() && (objectMode || n <= length)
      modifies list, list.nodes`data
      ensures list.Valid() && (r.None? <==> old(length) == 0)
      ensures r.None? ==> list.Chunks() == old(list.Chunks())
      ensures r.Some? && objectMode ==>
        old(list.Chunks()) != [] && r.value == old(list.Chunks())[0] && list.Chunks() == old(list.Chunks())[1..]
      ensures r.Some? && !objectMode ==>
        && |r.value| == (if n == 0 then old(length) else n)
        && |r.value| <= |Flat(old(list.Chunks()))| && r.value == Flat(old(list.Chunks()))[..|r.value|]
      ensures |list.nodes| <= |old(list.nodes)| && list.nodes == old(list.nodes)[|old(list.nodes)| - |list.nodes|..]
      ensures r.Some? && !objectMode ==> list.Chunks() == Dropped(old(list.Chunks()), |r.value|)
    {
      hide Flat;
      if length == 0 { return None; }
      if objectMode {
        r := list.Shift();
        return;
      }
      if n == 0 || n >= length {
        var all := list.Joined();
        DroppedIs(list.Chunks(), length);
        list.Clear();
        list.EmptyList();
        FlatNothing();
        return Some(all);
      }
      var part := list.FromListPartial(n, decoder != null);
      return Some(part);
    }

    lemma ListValid()
      requires Valid()
      ensures list.Valid()
    {
    }

    lemma FlatNothing()
      ensures Flat<int>([]) == []
    {
    }

    /** The part of `read` that takes data. */
    method Read(t: Option<int>) returns (r: Option<seq<int>>)
      requires Valid()
      modifies this`length, list, list.nodes`data
      ensures Valid()
      ensures !objectMode && r.Some? ==>
        |r.value| <= |Flat(old(list.Chunks()))| && r.value == Flat(old(list.Chunks()))[..|r.value|]
          && list.Chunks() == Dropped(old(list.Chunks()), |r.value|)
      ensures !objectMode && t.Some? ==>
        if 0 < t.value <= old(length) then r.Some? && |r.value| == t.value
        else if t.value > 0 && ended && old(length) > 0 then r.Some? && |r.value| == old(length)
        else r.None?
      ensures !objectMode && t.None? ==> (r.Some? <==> old(length) > 0)
      ensures !objectMode && t.None? && old(length) > 0 ==>
        if flowing then old(list.Chunks()) != [] && r.value == old(list.Chunks())[0] else |r.value| == old(length)
      ensures objectMode ==> (r.Some? <==> old(length) > 0 && (t.Some? ==> t.value > 0))
      ensures objectMode && r.Some? ==>
        old(list.Chunks()) != [] && r.value == old(list.Chunks())[0] && list.Chunks() == old(list.Chunks())[1..]
      ensures r.None? ==> list.Chunks() == old(list.Chunks())
      ensures |list.nodes| <= |old(list.nodes)| && list.nodes == old(list.nodes)[|old(list.nodes)| - |list.nodes|..]
    {
      hide Flat, BufferList.Valid, BufferList.Chunks, NoneEmpty;
      if !objectMode { Enough(t); } else { list.ChunkCount(); }
      var n := HowMuchToRead(t);
      if !objectMode && length > 0 { HeadFirst(); }
      r := None;
      ghost var chunks := list.Chunks();
      if n > 0 { r := FromList(n); }
      if r.Some? && !objectMode { DroppedIs(chunks, |r.value|); }
      if r.Some? { length := length - n; }
    }
  }

  // ---- Runs -------------------------------------------------------------------------------------------------------

  datatype Op =
    | Push(data: seq<int>, sync: bool)
    | Unshift(data: seq<int>, sync: bool)
    | End
    | Resume
    | Pause
    | Read(amount: Option<int>)

  ghost predicate Octets(ops: seq<Op>) {
    forall i | 0 <= i < |ops| && ops[i].Push? :: Bytes(ops[i].data)
  }

  predicate Ended(ops: seq<Op>) {
    End in ops
  }

  /** The chunks pushed before the end. */
  function Pushed(ops: seq<Op>): seq<seq<int>> {
    if ops == [] then []
    else
      var before, op := ops[..|ops| - 1], ops[|ops| - 1];
      if op.Push? && op.data != [] && !Ended(before) then Pushed(before) + [op.data] else Pushed(before)
  }

  lemma {:induction false} PushedBytes(ops: seq<Op>)
    requires Octets(ops)
    ensures Bytes(Flat(Pushed(ops)))
  {
    if ops != [] {
      var before, op := ops[..|ops| - 1], ops[|ops| - 1];
      PushedBytes(before);
      if op.Push? {
        FlatPush(Pushed(before), op.data);
        BytesJoin(Flat(Pushed(before)), op.data);
      }
    }
  }

  /** What an operation puts in, after those before it. */
  ghost function Entry(utf8: bool, before: seq<Op>, op: Op): seq<int>
    requires Octets(before) && (op.Push? ==> Bytes(op.data))
  {
    PushedBytes(before);
    match op
    case Push(data, _) => Pushing(utf8, Pushed(before), Ended(before), data)
    case Unshift(data, _) => data
    case End => Ending(utf8, Pushed(before), Ended(before))
    case _ => []
  }

  predicate Flowing(ops: seq<Op>) {
    ops != [] &&
    var op := ops[|ops| - 1];
    if op.Resume? then true else if op.Pause? then false else Flowing(ops[..|ops| - 1])
  }

  /** How much a read takes of the chunks: an amount that is there; for more, all if the stream has ended, else nothing;
      for no amount all, or while flowing the first chunk. */
  ghost function Amount(chunks: seq<seq<int>>, t: Option<int>, ended: bool, flowing: bool): nat {
    match t
    case Some(n) => if n <= 0 then 0 else if n <= |Flat(chunks)| then n else if ended then |Flat(chunks)| else 0
    case None => if flowing && chunks != [] then |chunks[0]| else |Flat(chunks)|
  }

  lemma AmountFits(chunks: seq<seq<int>>, t: Option<int>, ended: bool, flowing: bool)
    ensures Amount(chunks, t, ended, flowing) <= |Flat(chunks)|
  {
    hide Flat;
    if chunks != [] { WholeHead(chunks, |chunks[0]|); }
  }

  /** What comes out, and the chunks that are kept. */
  datatype State = State(outs: seq<seq<int>>, chunks: seq<seq<int>>)

  /** One operation that puts in the units e: they come out at once only while flowing, where none are kept, and not
      from `_read`; a read takes its amount off the front. */
  ghost function Step(st: State, op: Op, e: seq<int>, ended: bool, flowing: bool): State {
    match op
    case Push(_, sync) =>
      if e != [] && flowing && st.chunks == [] && !sync then State(st.outs + [e], st.chunks)
      else State(st.outs + [[]], Queued(st.chunks, e, false))
    case Unshift(_, sync) =>
      if e != [] && flowing && st.chunks == [] && !sync then State(st.outs + [e], st.chunks)
      else State(st.outs + [[]], Queued(st.chunks, e, true))
    case End => State(st.outs + [[]], Queued(st.chunks, e, false))
    case Read(t) =>
      var n := Amount(st.chunks, t, ended, flowing);
      AmountFits(st.chunks, t, ended, flowing);
      State(st.outs + [Flat(st.chunks)[..n]], Dropped(st.chunks, n))
    case _ => State(st.outs + [[]], st.chunks)
  }

  /** What each operation of a run gives out, and the chunks kept after the last. */
  ghost function Ran(utf8: bool, ops: seq<Op>): State
    requires Octets(ops)
  {
    if ops == [] then State([], [])
    else
      var before, op := ops[..|ops| - 1], ops[|ops| - 1];
      Step(Ran(utf8, before), op, Entry(utf8, before, op), Ended(before), Flowing(before))
  }

  /** Every operation is one of a queue of units: it puts its units in, at the front for `unshift`, and what comes out
      is taken off the front. */
  lemma StepQueues(st: State, op: Op, e: seq<int>, ended: bool, flowing: bool)
    requires op.Resume? || op.Pause? || op.Read? ==> e == []
    ensures
      var after := Step(st, op, e, ended, flowing);
      && (NoneEmpty(st.chunks) ==> NoneEmpty(after.chunks))
      && |after.outs| == |st.outs| + 1 && after.outs[..|st.outs|] == st.outs
      && after.outs[|st.outs|] + Flat(after.chunks) ==
        if op.Unshift? then e + Flat(st.chunks) else Flat(st.chunks) + e
  {
    hide Flat, Dropped, Amount;
    FlatPush(st.chunks, e);
    FlatJoin([e], st.chunks);
    FlatOne(e);
    NoChunks(st.chunks);
    if op.Read? {
      AmountFits(st.chunks, op.amount, ended, flowing);
      DroppedIs(st.chunks, Amount(st.chunks, op.amount, ended, flowing));
    }
  }

  /** All that operations put in. */
  ghost function Entered(utf8: bool, ops: seq<Op>): seq<int>
    requires Octets(ops)
  {
    if ops == [] then [] else Entered(utf8, ops[..|ops| - 1]) + Entry(utf8, ops[..|ops| - 1], ops[|ops| - 1])
  }

  /** Without `unshift`, what came out and what is left are what was put in, in order. */
  lemma {:induction false} InOrder(utf8: bool, ops: seq<Op>)
    requires Octets(ops) && forall i | 0 <= i < |ops| :: !ops[i].Unshift?
    ensures |Ran(utf8, ops).outs| == |ops|
    ensures Flat(Ran(utf8, ops).outs) + Flat(Ran(utf8, ops).chunks) == Entered(utf8, ops)
  {
    hide Flat, Step, Entry, Ended, Flowing;
    if ops == [] {
      StringDecoder.NothingShown();
    } else {
      var before, op := ops[..|ops| - 1], ops[|ops| - 1];
      OctetsTo(ops, |ops| - 1);
      EntryNothing(utf8, before, op);
      var was, now, e := Ran(utf8, before), Ran(utf8, ops), Entry(utf8, before, op);
      InOrder(utf8, before);
      StepQueues(was, op, e, Ended(before), Flowing(before));
      assert now.outs == was.outs + [now.outs[|was.outs|]];
      FlatPush(was.outs, now.outs[|was.outs|]);
      Regrouped(Flat(was.outs), Flat(was.chunks), e, now.outs[|was.outs|], Flat(now.chunks));
    }
  }

  lemma EntryNothing(utf8: bool, before: seq<Op>, op: Op)
    requires Octets(before) && (op.Push? ==> Bytes(op.data))
    ensures op.Resume? || op.Pause? || op.Read? ==> Entry(utf8, before, op) == []
  {
  }

  lemma Regrouped(taken: seq<int>, before: seq<int>, data: seq<int>, r: seq<int>, after: seq<int>)
    requires before + data == r + after
    ensures (taken + before) + data == (taken + r) + after
  {
    assert (taken + before) + data == taken + (before + data);
  }

  /** What was put in: the octets pushed, or with a decoder what it makes of the chunks, its last replacement when the
      stream has ended. */
  lemma {:induction false} EnteredIs(utf8: bool, ops: seq<Op>)
    requires Octets(ops) && forall i | 0 <= i < |ops| :: !ops[i].Unshift?
    ensures Bytes(Flat(Pushed(ops)))
    ensures Entered(utf8, ops) ==
      if !utf8 then Flat(Pushed(ops))
      else if Ended(ops) then StringDecoder.Streamed(Pushed(ops)) else StringDecoder.ShownAll(Pushed(ops))
  {
    hide Flat, StringDecoder.Shown, StringDecoder.ShownAll, StringDecoder.Behind, StringDecoder.Pending, Ended, Bytes;
    PushedBytes(ops);
    if ops == [] {
      NoneShown();
    } else {
      var before, op := ops[..|ops| - 1], ops[|ops| - 1];
      EnteredIs(utf8, before);
      EndedOn(ops);
      if op.Push? && op.data != [] && !Ended(before) { OnePushed(Pushed(before), op.data); }
    }
  }

  lemma EndedOn(ops: seq<Op>)
    requires ops != []
    ensures Ended(ops) <==> Ended(ops[..|ops| - 1]) || ops[|ops| - 1].End?
  {
    assert ops == ops[..|ops| - 1] + [ops[|ops| - 1]];
  }

  lemma NoneShown()
    ensures !Ended([]) && Flat<int>([]) == [] && Bytes(Flat<int>([])) && StringDecoder.ShownAll([]) == []
  {
  }

  lemma OnePushed(chunks: seq<seq<int>>, data: seq<int>)
    requires Bytes(Flat(chunks)) && Bytes(data) && Bytes(Flat(chunks + [data]))
    ensures Flat(chunks + [data]) == Flat(chunks) + data && StringDecoder.Waits(StringDecoder.Behind(Flat(chunks)))
    ensures StringDecoder.ShownAll(chunks + [data]) ==
      StringDecoder.ShownAll(chunks) + StringDecoder.Shown(StringDecoder.Behind(Flat(chunks)), data)
  {
    hide Flat, StringDecoder.Shown, StringDecoder.Behind;
    FlatPush(chunks, data);
    assert (chunks + [data])[..|chunks|] == chunks;
    StringDecoder.BehindWaits(Flat(chunks));
  }

  /** When a stream with a decoder has ended and all is read, what came out is what decoding all octets at once gives,
      exactly if the decoder lost no replacement to a cut. */
  lemma DecodedIff(ops: seq<Op>)
    requires Octets(ops) && Ended(ops) && Ran(true, ops).chunks == []
    requires forall i | 0 <= i < |ops| :: !ops[i].Unshift?
    ensures Bytes(Flat(Pushed(ops)))
    ensures Flat(Ran(true, ops).outs) == Utf8.Decoded(Flat(Pushed(ops)), 0) <==>
      StringDecoder.LostAll(Pushed(ops)) == 0
  {
    hide Ran, Entered, Pushed, StringDecoder.Streamed, StringDecoder.LostAll, Utf8.Decoded, Flat;
    InOrder(true, ops);
    EnteredIs(true, ops);
    StringDecoder.StreamedIff(Pushed(ops));
    NoChunks(Ran(true, ops).chunks);
    assert Flat(Ran(true, ops).outs) + [] == Flat(Ran(true, ops).outs);
  }

  method Perform(s: ReadState, op: Op, ghost before: seq<Op>, ghost st: State) returns (out: seq<int>)
    requires s.Valid() && !s.objectMode && Octets(before + [op]) && st.chunks == s.list.Chunks()
    requires s.Awaits(Pushed(before)) && s.ended == Ended(before) && s.flowing == Flowing(before)
    modifies s`length, s`ended, s`flowing, s.list, s.list.nodes, s.Decoding()
    ensures s.Valid() && fresh(set n | n in s.list.nodes && n !in old(s.list.nodes))
    ensures s.Awaits(Pushed(before + [op])) && s.ended == Ended(before + [op]) && s.flowing == Flowing(before + [op])
    ensures Octets(before) && (op.Push? ==> Bytes(op.data))
    ensures State(st.outs + [out], s.list.Chunks()) ==
      Step(st, op, Entry(s.decoder != null, before, op), old(s.ended), old(s.flowing))
  {
    hide Flat, BufferList.Valid, BufferList.Chunks, ReadState.Awaits, ReadState.Valid, Queued, Dropped, Pushing, Ending;
    assert (before + [op])[..|before|] == before && (before + [op])[|before|] == op;
    OctetsOf(before, op);
    PushedBytes(before);
    out := [];
    match op {
      case Push(data, sync) => out := s.Push(data, sync, Pushed(before));
      case Unshift(data, sync) => out := s.Unshift(data, sync);
      case End => s.End(Pushed(before));
      case Resume => s.Resume();
      case Pause => s.Pause();
      case Read(amount) => out := Take(s, amount);
    }
  }

  /** A read, with what comes out of it as octets. */
  method Take(s: ReadState, t: Option<int>) returns (out: seq<int>)
    requires s.Valid() && !s.objectMode
    modifies s`length, s.list, s.list.nodes`data
    ensures s.Valid() && fresh(set n | n in s.list.nodes && n !in old(s.list.nodes))
    ensures
      var n := Amount(old(s.list.Chunks()), t, s.ended, s.flowing);
      n <= |Flat(old(s.list.Chunks()))| && out == Flat(old(s.list.Chunks()))[..n]
        && s.list.Chunks() == Dropped(old(s.list.Chunks()), n)
  {
    hide Flat, BufferList.Valid, BufferList.Chunks, ReadState.Valid, Dropped;
    s.Waiting();
    AmountFits(s.list.Chunks(), t, s.ended, s.flowing);
    DroppedIs(s.list.Chunks(), 0);
    var taken := s.Read(t);
    out := if taken.Some? then taken.value else [];
  }

  lemma OctetsOf(before: seq<Op>, op: Op)
    requires Octets(before + [op])
    ensures Octets(before) && (op.Push? ==> Bytes(op.data))
  {
    var ops := before + [op];
    forall i | 0 <= i < |before| && before[i].Push? ensures Bytes(before[i].data) { assert ops[i] == before[i]; }
    assert ops[|before|] == op;
  }

  /** Every run of a stream, with or without a decoder, gives out what the run of the chunks does. */
  method Run(utf8: bool, ops: seq<Op>) returns (outs: seq<seq<int>>, left: seq<int>)
    requires Octets(ops)
    ensures outs == Ran(utf8, ops).outs && left == Flat(Ran(utf8, ops).chunks)
  {
    hide Flat, BufferList.Valid, BufferList.Chunks, ReadState.Valid, ReadState.Awaits, Pushed, Entry, Step, Octets,
      Ended;
    var s := new ReadState(false, utf8);
    NothingPushed();
    s.list.EmptyList();
    outs := [];
    var i := 0;
    assert ops[..0] == [];
    OctetsTo(ops, 0);
    while i < |ops|
      invariant i == |outs| <= |ops| && fresh(s) && fresh(s.list) && fresh(s.Decoding()) && s.Valid() && !s.objectMode
      invariant fresh(set n | n in s.list.nodes) && (s.decoder != null <==> utf8)
      invariant s.Awaits(Pushed(ops[..i])) && s.ended == Ended(ops[..i]) && s.flowing == Flowing(ops[..i])
      invariant Octets(ops[..i]) && Ran(utf8, ops[..i]) == State(outs, s.list.Chunks())
    {
      assert ops[..i + 1] == ops[..i] + [ops[i]];
      OctetsTo(ops, i + 1);
      ghost var st := Ran(utf8, ops[..i]);
      var out := Perform(s, ops[i], ops[..i], st);
      RanOn(utf8, ops, i);
      outs := outs + [out];
      i := i + 1;
    }
    assert ops[..i] == ops;
    s.ListValid();
    left := s.list.Joined();
  }

  lemma OctetsTo(ops: seq<Op>, i: nat)
    requires i <= |ops| && Octets(ops)
    ensures Octets(ops[..i])
  {
  }

  lemma RanOn(utf8: bool, ops: seq<Op>, i: nat)
    requires i < |ops| && Octets(ops[..i + 1]) && Octets(ops[..i]) && (ops[i].Push? ==> Bytes(ops[i].data))
    ensures Ran(utf8, ops[..i + 1]) ==
      Step(Ran(utf8, ops[..i]), ops[i], Entry(utf8, ops[..i], ops[i]), Ended(ops[..i]), Flowing(ops[..i]))
  {
    hide Entry, Step;
    assert ops[..i + 1][..i] == ops[..i];
  }

  lemma NothingPushed()
    ensures Pushed([]) == [] && !Ended([])
  {
  }
}
