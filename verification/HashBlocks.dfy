/** The block buffer of the SHA hashes, against the padding of sections 5.1.1 and 5.1.2 of FIPS 180-4. */
module HashBlocks {
  import opened Arithmetic
  import opened Sequences

  // ---- The standard -------------------------------------------------------------------------------------------------

  function Zeros(n: nat): seq<int> {
    seq(n, _ => 0)
  }

  /** n in w octets, the most significant first. */
  function BigEndian(n: nat, w: nat): (r: seq<int>)
    ensures |r| == w
    decreases w
  {
    if w == 0 then [] else BigEndian(n / 256, w - 1) + [n % 256]
  }

  /** The message, a one bit, the fewest zero bits that fill up a block but for the length field, and the length in
      bits. */
  function Padded(m: seq<int>, blockSize: nat, finalSize: nat): seq<int>
    requires 0 < finalSize < blockSize
  {
    m + [128] + Zeros((finalSize - 1 - |m|) % blockSize) + BigEndian(8 * |m|, blockSize - finalSize)
  }

  lemma {:induction false} BigEndianZero(w: nat)
    ensures BigEndian(0, w) == Zeros(w)
  {
    if w > 0 { BigEndianZero(w - 1); }
  }

  /** Leading zeros of a number that is small enough. */
  lemma {:induction false} BigEndianWide(n: nat, z: nat, w: nat)
    requires Small(n, w)
    ensures BigEndian(n, z + w) == Zeros(z) + BigEndian(n, w)
    decreases w
  {
    if w == 0 {
      BigEndianZero(z);
    } else {
      BigEndianWide(n / 256, z, w - 1);
      assert z + w - 1 == z + (w - 1);
    }
  }

  /** n fits in w octets. */
  predicate Small(n: nat, w: nat)
    decreases w
  {
    if w == 0 then n == 0 else Small(n / 256, w - 1)
  }

  /** The number that octets stand for, the most significant first. */
  function Value(s: seq<int>): int {
    if s == [] then 0 else 256 * Value(s[..|s| - 1]) + s[|s| - 1]
  }

  lemma {:induction false} BigEndianValue(n: nat, w: nat)
    requires Small(n, w)
    ensures Value(BigEndian(n, w)) == n && Bytes(BigEndian(n, w))
    decreases w
  {
    if w > 0 {
      BigEndianValue(n / 256, w - 1);
      assert BigEndian(n, w)[..w - 1] == BigEndian(n / 256, w - 1);
    }
  }

  /** Whole blocks: the message, an octet that starts with a one bit, zeros, and the length in bits; no block fewer
      would do. */
  lemma PaddedIs(m: seq<int>, blockSize: nat, finalSize: nat)
    requires (blockSize == 64 && finalSize == 56) || (blockSize == 128 && finalSize == 112)
    requires 8 * |m| < 0x1_0000_0000_0000_0000
    ensures var r := Padded(m, blockSize, finalSize); var field := if blockSize == 64 then 8 else 16;
      && |r| % blockSize == 0 && |m| + 1 + field <= |r| < |m| + 1 + field + blockSize
      && r[..|m|] == m && r[|m|] == 0x80 && (forall i | |m| < i < |r| - field :: r[i] == 0)
      && Bytes(r[|r| - field..]) && Value(r[|r| - field..]) == 8 * |m|
  {
    hide BigEndian, Value;
    var field := blockSize - finalSize;
    SmallEight(8 * |m|);
    SmallWider(8 * |m|, 8, field);
    BigEndianValue(8 * |m|, field);
    var r := Padded(m, blockSize, finalSize);
    assert r[|r| - field..] == BigEndian(8 * |m|, field);
    PadFits(|m|, blockSize, finalSize);
  }

  lemma PadFits(n: nat, blockSize: nat, finalSize: nat)
    requires (blockSize == 64 && finalSize == 56) || (blockSize == 128 && finalSize == 112)
    ensures (n + 1 + (finalSize - 1 - n) % blockSize + (blockSize - finalSize)) % blockSize == 0
  {
  }

  lemma SmallEight(n: nat)
    requires n < 0x1_0000_0000_0000_0000
    ensures Small(n, 8)
  {
    WordIs(n / 0x1_0000_0000);
    ShiftedFour(n);
    SmallShift(n, 4);
  }

  lemma {:induction false} SmallWider(n: nat, v: nat, w: nat)
    requires Small(n, v) && v <= w
    ensures Small(n, w)
    decreases w
  {
    if v == 0 {
      NoneSmall(w);
    } else {
      SmallWider(n / 256, v - 1, w - 1);
    }
  }

  lemma {:induction false} NoneSmall(w: nat)
    ensures Small(0, w)
  {
    if w > 0 { NoneSmall(w - 1); }
  }

  /** `writeUInt32BE` */
  function Word(n: int): seq<int> {
    [n / 0x1000000 % 256, n / 0x10000 % 256, n / 0x100 % 256, n % 256]
  }

  lemma WordIs(n: nat)
    ensures BigEndian(n, 4) == Word(n) && (n < 0x1_0000_0000 ==> Small(n, 4))
  {
  }

  lemma LowWord(n: nat)
    ensures Word(n) == Word(n % 0x1_0000_0000)
  {
    var q, r := n / 0x1_0000_0000, n % 0x1_0000_0000;
    assert n == q * 0x1_0000_0000 + r;
    assert n / 0x1000000 == q * 0x100 + r / 0x1000000;
    assert n / 0x10000 == q * 0x10000 + r / 0x10000;
    assert n / 0x100 == q * 0x1000000 + r / 0x100;
    Same256(n / 0x1000000, r / 0x1000000, q);
    Same256(n / 0x10000, r / 0x10000, q * 0x100);
    Same256(n / 0x100, r / 0x100, q * 0x10000);
    Same256(n, r, q * 0x1000000);
  }

  /** Two words of a 64-bit number. */
  lemma TwoWords(n: nat)
    ensures BigEndian(n, 8) == BigEndian(n / 0x1_0000_0000, 4) + Word(n % 0x1_0000_0000)
  {
    hide Word;
    WordIs(n);
    LowWord(n);
    ShiftedFour(n);
    BigEndianSplit(n, 4, 4);
  }

  function Shifted(n: nat, v: nat): nat
    decreases v
  {
    if v == 0 then n else Shifted(n / 256, v - 1)
  }

  lemma {:induction false} BigEndianSplit(n: nat, w: nat, v: nat)
    ensures BigEndian(n, w + v) == BigEndian(Shifted(n, v), w) + BigEndian(n, v)
    decreases v
  {
    if v > 0 { BigEndianSplit(n / 256, w, v - 1); }
  }

  lemma ShiftedFour(n: nat)
    ensures Shifted(n, 4) == n / 0x1_0000_0000
  {
  }

  /** The end of the last block as `digest` writes it over zeros. */
  function LengthField(n: nat, w: nat): seq<int>
    requires w >= 8
  {
    if n <= 0xFFFF_FFFF then Zeros(w - 4) + Word(n)
    else Zeros(w - 8) + Word(n / 0x1_0000_0000) + Word(n % 0x1_0000_0000)
  }

  lemma LengthFieldIs(n: nat, w: nat)
    requires w >= 8 && n < 0x20_0000_0000_0000
    ensures LengthField(n, w) == BigEndian(n, w)
  {
    hide Word, BigEndian, Zeros, Small;
    if n <= 0xFFFF_FFFF {
      WordIs(n);
      BigEndianWide(n, w - 4, 4);
    } else {
      var h := n / 0x1_0000_0000;
      WordIs(h);
      TwoWords(n);
      ShiftedFour(n);
      SmallShift(n, 4);
      BigEndianWide(n, w - 8, 8);
    }
  }

  lemma {:induction false} SmallShift(n: nat, v: nat)
    requires Small(Shifted(n, v), 4)
    ensures Small(n, 4 + v)
    decreases v
  {
    if v > 0 { SmallShift(n / 256, v - 1); }
  }

  function Overwritten(s: seq<int>, at: nat, w: seq<int>): seq<int>
    requires at + |w| <= |s|
  {
    s[..at] + w + s[at + |w|..]
  }

  lemma OverwriteOne(head: seq<int>, w: nat, x: seq<int>)
    requires w >= 8 && |x| == 4
    ensures Overwritten(head + Zeros(w), |head| + w - 4, x) == head + (Zeros(w - 4) + x)
  {
  }

  lemma OverwriteTwo(head: seq<int>, w: nat, x: seq<int>, y: seq<int>)
    requires w >= 8 && |x| == 4 && |y| == 4
    ensures var first := Overwritten(head + Zeros(w), |head| + w - 8, x);
      Overwritten(first, |head| + w - 4, y) == head + (Zeros(w - 8) + x + y)
  {
  }

  class Hash {
    const block: array<int>
    const blockSize: nat
    const finalSize: nat
    var len: nat
    /** The blocks given to `_update`, and the message so far. */
    var blocks: seq<seq<int>>
    ghost var message: seq<int>

    ghost predicate Sized()
      reads this
    {
      && block.Length == blockSize && ((blockSize == 64 && finalSize == 56) || (blockSize == 128 && finalSize == 112))
      && len == |message| && Bytes(message)
      && forall i | 0 <= i < |blocks| :: |blocks[i]| == blockSize
    }

    /** The blocks so far and what the block buffer holds are the message. */
    ghost predicate Valid()
      reads this, block
    {
      Sized() && Flat(blocks) + block[..len % blockSize] == message
    }

    constructor (blockSize: nat, finalSize: nat)
      requires (blockSize == 64 && finalSize == 56) || (blockSize == 128 && finalSize == 112)
      ensures Valid() && message == [] && blocks == [] && fresh(block)
      ensures this.blockSize == blockSize && this.finalSize == finalSize
    {
      this.blockSize, this.finalSize := blockSize, finalSize;
      block := new int[blockSize](_ => 0);
      len, blocks, message := 0, [], [];
    }

    /** The subclass's `_update`. */
    method Process()
      requires Sized()
      modifies `blocks
      ensures Sized() && blocks == old(blocks) + [block[..]] && Flat(blocks) == Flat(old(blocks)) + block[..]
    {
      FlatPush(blocks, block[..]);
      blocks := blocks + [block[..]];
    }

    /** The inner loop of `update`. */
    method Fill(t: seq<int>, s: nat, a: nat, c: nat)
      requires s + c <= |t| && a + c <= block.Length
      modifies block
      ensures block[..a + c] == old(block[..a]) + t[s..s + c]
    {
      var f := 0;
      while f < c
        invariant f <= c && block[..a] == old(block[..a]) && block[a..a + f] == t[s..s + f]
      {
        block[a + f] := t[s + f];
        f := f + 1;
      }
      assert block[..a + c] == block[..a] + block[a..a + c];
    }

    /** One round of `update`: the buffer takes c octets, and goes to `_update` if it is full. */
    method Take(t: seq<int>, s: nat, u: nat, c: nat, ghost m: seq<int>)
      requires Sized() && s + c <= |t| && 0 < c <= blockSize - u % blockSize
        && Flat(blocks) + block[..u % blockSize] == m + t[..s]
      modifies `blocks, block
      ensures Sized() && Flat(blocks) + block[..(u + c) % blockSize] == m + t[..s + c]
    {
      hide Flat;
      var a := u % blockSize;
      ghost var before := block[..a];
      Fill(t, s, a, c);
      assert m + t[..s + c] == (m + t[..s]) + t[s..s + c];
      assert Flat(blocks) + (before + t[s..s + c]) == (Flat(blocks) + before) + t[s..s + c];
      Onward(u, c, blockSize);
      if (u + c) % blockSize == 0 {
        assert block[..a + c] == block[..];
        Process();
      }
    }

    /** `update` */
    method Update(t: seq<int>)
      requires Valid() && Bytes(t)
      modifies this, block
      ensures Valid() && message == old(message) + t
    {
      hide Flat;
      var o, u, s := |t|, len, 0;
      while s < o
        invariant s <= o && u == len + s && Sized() && len == old(len) && message == old(message)
        invariant Flat(blocks) + block[..u % blockSize] == message + t[..s]
      {
        var a := u % blockSize;
        var c := if o - s < blockSize - a then o - s else blockSize - a;
        Take(t, s, u, c, message);
        s, u := s + c, u + c;
      }
      assert t[..s] == t;
      message := message + t;
      len := len + o;
    }

    /** `fill(0, from)` */
    method ZeroFrom(from: nat)
      requires from <= block.Length
      modifies block
      ensures block[..from] == old(block[..from]) && block[from..] == Zeros(block.Length - from)
    {
      forall i | from <= i < block.Length { block[i] := 0; }
    }

    /** `writeUInt32BE` */
    method WriteWord(n: int, at: nat)
      requires at + 4 <= block.Length
      modifies block
      ensures block[..] == Overwritten(old(block[..]), at, Word(n))
    {
      var w := Word(n);
      block[at], block[at + 1], block[at + 2], block[at + 3] := w[0], w[1], w[2], w[3];
    }

    /** The length, written over the zeros at the end of the last block. */
    method WriteLength(n: nat)
      requires Sized() && n < 0x20_0000_0000_0000 && block[finalSize..] == Zeros(blockSize - finalSize)
      modifies block
      ensures block[..] == old(block[..finalSize]) + BigEndian(n, blockSize - finalSize)
    {
      hide BigEndian, Zeros, Overwritten;
      LengthFieldIs(n, blockSize - finalSize);
      ghost var w := blockSize - finalSize;
      ghost var head := block[..finalSize];
      assert block[..] == head + Zeros(w);
      if n <= 0xFFFF_FFFF {
        OverwriteOne(head, w, Word(n));
        WriteWord(n, blockSize - 4);
      } else {
        var low := n % 0x1_0000_0000;
        var high := (n - low) / 0x1_0000_0000;
        OverwriteTwo(head, w, Word(high), Word(low));
        WriteWord(high, blockSize - 8);
        WriteWord(low, blockSize - 4);
      }
    }

    /** The end of `digest`: the length goes into the block, and the block to `_update`. */
    method LastBlock(ghost fed: seq<int>, ghost head: seq<int>)
      requires Sized() && 8 * len < 0x20_0000_0000_0000 && block[..finalSize] == head && Flat(blocks) == fed
      requires block[finalSize..] == Zeros(blockSize - finalSize)
      modifies `blocks, block
      ensures Sized() && Flat(blocks) == fed + (head + BigEndian(8 * len, blockSize - finalSize))
    {
      hide Flat, BigEndian;
      WriteLength(8 * len);
      Process();
    }

    /** `digest`, up to the call of `_hash`: what has gone to `_update` is the padded message, in whole blocks. */
    method Digest()
      requires Valid() && 8 * len < 0x20_0000_0000_0000
      modifies `blocks, block
      ensures Sized() && Flat(blocks) == Padded(message, blockSize, finalSize)
    {
      hide Flat, BigEndian, Zeros;
      var e := len % blockSize;
      ghost var fed := Flat(blocks);
      ghost var had := block[..e];
      block[e] := 128;
      ZeroFrom(e + 1);
      assert block[..] == block[..e + 1] + block[e + 1..];
      assert block[..e + 1] == had + [128];
      PadLength(len, blockSize, finalSize);
      ghost var z := if e >= finalSize then blockSize - e - 1 else finalSize - e - 1;
      if e >= finalSize {
        Process();
        ZeroFrom(0);
        ZerosCut(block[..], [], finalSize);
        LastBlock(fed + (had + [128] + Zeros(z)), Zeros(finalSize));
        ZerosAdd(z, finalSize);
        Joined(fed, had, Zeros(z), Zeros(finalSize), BigEndian(8 * len, blockSize - finalSize));
      } else {
        ZerosCut(block[..], had + [128], finalSize);
        LastBlock(fed, had + [128] + Zeros(z));
        Joined(fed, had, Zeros(z), [], BigEndian(8 * len, blockSize - finalSize));
      }
    }
  }

  lemma ZerosAdd(a: nat, b: nat)
    ensures Zeros(a) + Zeros(b) == Zeros(a + b)
  {
  }

  /** Where a block of head and zeros is cut. */
  lemma ZerosCut(b: seq<int>, head: seq<int>, f: nat)
    requires |head| <= f <= |b| && b == head + Zeros(|b| - |head|)
    ensures b[..f] == head + Zeros(f - |head|) && b[f..] == Zeros(|b| - f)
  {
  }

  lemma Joined(fed: seq<int>, had: seq<int>, z: seq<int>, y: seq<int>, l: seq<int>)
    ensures (fed + (had + [128] + z)) + (y + l) == (fed + had) + [128] + (z + y) + l
    ensures y == [] ==> fed + ((had + [128] + z) + l) == (fed + had) + [128] + z + l
  {
  }

  /** The number of zero octets. */
  lemma PadLength(len: nat, blockSize: nat, finalSize: nat)
    requires (blockSize == 64 && finalSize == 56) || (blockSize == 128 && finalSize == 112)
    ensures var e := len % blockSize;
      (finalSize - 1 - len) % blockSize == if e < finalSize then finalSize - 1 - e else finalSize - 1 - e + blockSize
  {
  }

  lemma Onward(u: nat, c: nat, size: nat)
    requires size == 64 || size == 128
    requires 0 < c <= size - u % size
    ensures (u + c) % size == if u % size + c == size then 0 else u % size + c
  {
  }

  /** However a message is cut into calls of `update`, the blocks are those of the padded message. */
  method BlocksOf(chunks: seq<seq<int>>, blockSize: nat, finalSize: nat) returns (blocks: seq<seq<int>>)
    requires (blockSize == 64 && finalSize == 56) || (blockSize == 128 && finalSize == 112)
    requires (forall i | 0 <= i < |chunks| :: Bytes(chunks[i])) && 8 * |Flat(chunks)| < 0x20_0000_0000_0000
    ensures forall i | 0 <= i < |blocks| :: |blocks[i]| == blockSize
    ensures Flat(blocks) == Padded(Flat(chunks), blockSize, finalSize)
  {
    hide Padded;
    var h := new Hash(blockSize, finalSize);
    assert Flat(chunks[..0]) == [];
    var i := 0;
    while i < |chunks|
      invariant i <= |chunks| && fresh(h) && fresh(h.block) && h.Valid() && h.message == Flat(chunks[..i])
    {
      assert chunks[..i + 1] == chunks[..i] + [chunks[i]];
      FlatPush(chunks[..i], chunks[i]);
      h.Update(chunks[i]);
      i := i + 1;
    }
    assert chunks[..i] == chunks;
    h.Digest();
    blocks := h.blocks;
  }
}
