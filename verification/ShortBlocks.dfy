/** A block stored short, over the front of the block that was there. */
module ShortBlocks {
  import opened Bytes
  import opened Layout
  import opened CryptoWrite

  /** Laying `x` over the front of block `k` touches no other block. */
  lemma ChunkOfFront(s: seq<byte>, k: nat, size: nat, x: seq<byte>, i: nat)
    requires Off(k, size) + |x| <= |s| && |x| <= size
    ensures |x| <= |Chunk(s, k, size)|
    ensures Chunk(Splice(s, Off(k, size), x), i, size) ==
            if i == k then Splice(Chunk(s, k, size), 0, x) else Chunk(s, i, size)
  {
    hide Off, Splice;
    var off := Off(k, size);
    var t := Splice(s, off, x);
    if i < k { OffMono(i, k, size); } else if k < i { OffMono(k, i, size); }
    var l, r := Chunk(t, i, size), if i == k then Splice(Chunk(s, k, size), 0, x) else Chunk(s, i, size);
    assert |l| == |r|;
    forall j: nat | j < |l| ensures l[j] == r[j] {
      ChunkByte(t, i, size, j);
      SpliceAt(s, off, x, Off(i, size) + j);
      ChunkByte(s, i, size, j);
      if i == k { SpliceAt(Chunk(s, k, size), 0, x, j); }
    }
  }

  lemma StoredLenInjective(P: nat, n: nat, m: nat)
    requires P > 0 && StoredLen(P, n) == StoredLen(P, m)
    ensures n == m
  {
    hide Off, Div, Mod;
    StoredDiv(P, n);
    StoredDiv(P, m);
    DivMod(n, P);
    DivMod(m, P);
  }

  /** The stored block `k` with the sealed `x` laid over its front. */
  function Mixed(c: Codec, d: seq<byte>, k: nat, nonce: Nonce, x: seq<byte>): seq<byte> {
    Splice(Chunk(d, k, c.S()), 0, SealChunk(c, k, nonce, x))
  }

  /** The plaintext with the block at `off` replaced by what the mixed one opens to, if it opens. */
  function Reopened(a: seq<byte>, off: nat, got: Option<seq<byte>>): Option<seq<byte>>
    requires off <= |a|
  {
    if got.Some? then Some(Splice(a, off, got.value)) else None
  }

  /**
   * Sealing fewer bytes than the stored block holds, under any cipher: only that block is touched, and the
   * stream decodes if and only if the mixed block opens, to the plaintext with that block replaced by
   * what it opens to. So it is the positioned write exactly when the cipher opens the mixed block to
   * the block it should be.
   */
  lemma ShortBlock(c: Codec, d: seq<byte>, a: seq<byte>, k: nat, nonce: Nonce, x: seq<byte>)
    requires Stores(c, d, a) && 0 < |x| < c.P && Off(k, c.P) + |x| < |a|
    ensures Off(k, c.S()) <= |d|
    ensures var d' := Splice(d, Off(k, c.S()), SealChunk(c, k, nonce, x));
            var got := OpenChunk(c, k, Mixed(c, d, k, nonce, x));
            && Decode(c, 0, d') == Reopened(a, Off(k, c.P), got)
            && (Decode(c, 0, d') == Some(WriteAt(a, Off(k, c.P), x)) <==>
                got == Some(Splice(Chunk(a, k, c.P), 0, x)))
  {
    hide Off, Decode, Splice, WriteAt, Stores, StoredLen, Chunk;
    var off, poff := Off(k, c.S()), Off(k, c.P);
    var y := SealChunk(c, k, nonce, x);
    BlockShape(c, d, a, k);
    FrontFits(c, d, a, k, |x|);
    ChunkOfFront(d, k, c.S(), y, k);
    var d' := Splice(d, off, y);
    var got := OpenChunk(c, k, Mixed(c, d, k, nonce, x));
    WriteAtInside(a, poff, x);
    ChunkFull(a, k, c.P);
    SpliceChunkFront(a, k, c.P, x);
    if got.Some? {
      assert |got.value| == |Chunk(a, k, c.P)|;
      StoresMixed(c, d, a, k, y, got.value);
      StoresIffDecodes(c, d', Splice(a, poff, got.value));
      if Splice(a, poff, got.value) == Splice(a, poff, x) {
        ChunkOfFront(a, k, c.P, got.value, k);
        SpliceOntoAll(Chunk(a, k, c.P), got.value);
        ChunkOfFront(a, k, c.P, x, k);
      }
    } else if Decode(c, 0, d').Some? {
      var b := Decode(c, 0, d').value;
      StoresIffDecodes(c, d', b);
      SameStoredSize(c, d, a, d', b);
      BlockShape(c, d', b, k);
    }
  }

  lemma SpliceOntoAll(s: seq<byte>, x: seq<byte>)
    requires |s| == |x|
    ensures Splice(s, 0, x) == x
  {
  }

  /** Writing the front of a block is replacing the block by itself with that front. */
  lemma SpliceChunkFront(a: seq<byte>, k: nat, size: nat, x: seq<byte>)
    requires Off(k, size) + |x| <= |a| && |x| <= |Chunk(a, k, size)|
    ensures Splice(a, Off(k, size), Splice(Chunk(a, k, size), 0, x)) == Splice(a, Off(k, size), x)
  {
    hide Off;
    var off, b := Off(k, size), Chunk(a, k, size);
    SpliceNested(a, off, b, 0, x);
    SpliceChunk(a, k, size);
  }

  lemma FrontFits(c: Codec, d: seq<byte>, a: seq<byte>, k: nat, n: nat)
    requires Stores(c, d, a) && 0 < n < c.P && Off(k, c.P) + n < |a|
    ensures Off(k, c.S()) + n + OVERHEAD <= |d| && n <= |Chunk(a, k, c.P)|
    ensures |Chunk(d, k, c.S())| == |Chunk(a, k, c.P)| + OVERHEAD
  {
    hide Off, StoredLen;
    BlockShape(c, d, a, k);
  }

  lemma SameStoredSize(c: Codec, d: seq<byte>, a: seq<byte>, d': seq<byte>, b: seq<byte>)
    requires Stores(c, d, a) && Stores(c, d', b) && |d| == |d'|
    ensures |a| == |b|
  {
    StoredLenInjective(c.P, |a|, |b|);
  }

  /** A block whose front was overwritten, and which opens to `q`, stores the plaintext with `q` in its place. */
  lemma StoresMixed(c: Codec, d: seq<byte>, a: seq<byte>, k: nat, y: seq<byte>, q: seq<byte>)
    requires Stores(c, d, a) && Off(k, c.P) < |a|
    requires Off(k, c.S()) + |y| <= |d| && |y| <= c.S() && |q| == |Chunk(a, k, c.P)|
    requires OpenChunk(c, k, Chunk(Splice(d, Off(k, c.S()), y), k, c.S())) == Some(q)
    ensures Stores(c, Splice(d, Off(k, c.S()), y), Splice(a, Off(k, c.P), q))
  {
    hide Off, Splice, StoredLen, Chunk;
    ChunkFull(a, k, c.P);
    var d', a' := Splice(d, Off(k, c.S()), y), Splice(a, Off(k, c.P), q);
    forall i: nat | Off(i, c.P) < |a'| ensures BlockAt(c, 0, d', a', i) {
      ChunkOfFront(d, k, c.S(), y, i);
      ChunkOfFront(a, k, c.P, q, i);
      assert BlockAt(c, 0, d, a, i);
      if i == k { SpliceOntoAll(Chunk(a, k, c.P), q); }
    }
  }

  /**
   * `x` was stored, under some nonce, over the front of block `k` of a stored plaintext `a`, and the stream
   * decodes to what that block opens to.
   */
  ghost predicate StoredShort(c: Codec, a: seq<byte>, k: nat, x: seq<byte>, d': seq<byte>) {
    exists d, nonce :: CutShort(c, d, a, k, nonce, x, d')
  }

  ghost predicate CutShort(c: Codec, d: seq<byte>, a: seq<byte>, k: nat, nonce: Nonce, x: seq<byte>, d': seq<byte>) {
    && Decode(c, 0, d) == Some(a) && 0 < |x| < c.P && Off(k, c.P) + |x| < |a|
    && var got := OpenChunk(c, k, Mixed(c, d, k, nonce, x));
       && Decode(c, 0, d') == Reopened(a, Off(k, c.P), got)
       && (Decode(c, 0, d') == Some(WriteAt(a, Off(k, c.P), x)) <==> got == Some(Splice(Chunk(a, k, c.P), 0, x)))
  }

  lemma CutIsShort(c: Codec, d: seq<byte>, a: seq<byte>, k: nat, nonce: Nonce, x: seq<byte>)
    requires Stores(c, d, a) && 0 < |x| < c.P && Off(k, c.P) + |x| < |a| && Off(k, c.S()) <= |d|
    ensures StoredShort(c, a, k, x, Splice(d, Off(k, c.S()), SealChunk(c, k, nonce, x)))
  {
    hide Off, Decode, Splice, WriteAt, Stores, Chunk, Mixed, Reopened;
    ShortBlock(c, d, a, k, nonce, x);
    StoresIffDecodes(c, d, a);
    assert CutShort(c, d, a, k, nonce, x, Splice(d, Off(k, c.S()), SealChunk(c, k, nonce, x)));
  }
}
