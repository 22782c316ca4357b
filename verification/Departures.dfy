/** Where the streams depart from a plain byte array, each shown on a whole family of inputs. */
module Departures {
  import opened Bytes
  import opened Layout
  import opened Buffers
  import opened CryptoWrite
  import opened CryptoWriteSeek
  import opened ShortBlocks
  import opened WriterMachine

  /**
   * A seek and a nonempty write, from any state of the writer whose front, if one is pending, the seek does
   * not leave: the plaintext is the positioned write if and only if no bytes of an old block, and no zeros
   * over stored bytes, come with it. After a stale seek from a loaded block, that block with the bytes laid
   * over it is appended, or, behind it, nothing is written.
   */
  method SeekThenWrite(w: RingCryptoWriteSeek, p: nat, x: seq<byte>) returns (r: Result<()>)
    requires w.Live() && x != [] && AfterSeek(w.inner.c.P, StateOf(w), p).State?
    modifies w.inner, w.inner.out, w.inner.out.node, w.inner.buf, w.inner.buf.data
    modifies w.decryptBuf, w.decryptBuf.data
    ensures w.Live() && StateOf(w) == AfterWrite(w.inner.c.P, AfterSeek(w.inner.c.P, old(StateOf(w)), p), x)
    ensures w.Plain() == WriteAt(old(w.Plain()), p, x) <==> old(SeekWriteGuard(w.inner.c.P, StateOf(w), p, x))
    ensures old(w.Valid() && w.Stale(p)) ==>
              && r == (if p >= |old(w.Plain())| + w.inner.c.P then Err(WriteZero) else Ok(()))
              && old(w.Plain()) != [] && |old(w.inner.buf.Content())| == w.inner.c.P
              && old(w.inner.buf.Content()) == Chunk(old(w.Plain()), old(w.inner.blockIndex), w.inner.c.P)
              && w.Plain() == if r.Err? then old(w.Plain())
                              else old(w.Plain()) + Splice(old(w.inner.buf.Content()), p - |old(w.Plain())|, x)
  {
    hide Off, Div, Mod, Stores, WriteAt, ZeroExtend, Splice, Chunk, StateOf, AfterSeek, AfterWrite, SeekWriteGuard;
    hide RingCryptoWriteSeek.Live;
    ghost var s := StateOf(w);
    StateFormed(w);
    PlainOf(w);
    StaleFacts(w, p, x);
    StepSeek(w, p);
    r := StepWrite(w, x);
    SeekWriteExactly(w.inner.c.P, s, p, x);
    PlainOf(w);
  }

  /** What a stale seek from a loaded block and a write come to. */
  lemma StaleFacts(w: RingCryptoWriteSeek, p: nat, x: seq<byte>)
    requires w.Live() && x != []
    ensures w.Valid() && w.Stale(p) ==>
              var P, a, b := w.inner.c.P, w.Plain(), w.inner.buf.Content();
              var s1 := AfterSeek(P, StateOf(w), p);
              && s1.State? && a != [] && |b| == P && b == Chunk(a, w.inner.blockIndex, P)
              && (Full(P, s1) <==> p >= |a| + P) && !AfterWrite(P, s1, x).cache.Front?
              && AfterWrite(P, s1, x).a == if p >= |a| + P then a else a + Splice(b, p - |a|, x)
  {
    hide Off, Div, Mod, Stores, WriteAt, ZeroExtend, Splice, Chunk;
    if w.Valid() && w.Stale(p) {
      w.CleanIsStored();
      w.Here();
      w.CursorBlock();
      w.StaleIsElsewhere(p);
      if p < |w.Plain()| + w.inner.c.P { WriteIntoTail(w.Plain(), w.inner.buf.Content(), p - |w.Plain()|, x); }
    }
  }

  /**
   * Over any stored plaintext of whole blocks: once a block was loaded by a seek alone, a seek past the
   * end reports success but writes no zeros.
   */
  method StaleSeek(c: Codec, d: seq<byte>) returns (r: Result<nat>, d': seq<byte>)
    requires Decode(c, 0, d).Some?
    requires Decode(c, 0, d).value != [] && Mod(|Decode(c, 0, d).value|, c.P) == 0
    ensures var a := Decode(c, 0, d).value;
            && r == Ok(|a| + 1)
            && Decode(c, 0, d') == Some(a)
            && a != ZeroExtend(a, |a| + 1)
  {
    hide Off, Div, Mod, Stores, Decode, WriteAt, Splice, ZeroExtend, Chunk;
    ghost var a := Decode(c, 0, d).value;
    StoresIffDecodes(c, d, a);
    WholeBlocksFull(c.P, |a|);
    var node := new Inode(d);
    var file := new File(node);
    var w := new RingCryptoWriteSeek(c, file, a);
    LoadBySeek(w);
    r := SeekPastEnd(w, |Decode(c, 0, d).value|);
    d' := node.bytes;
  }

  /**
   * The same seek and then a write into the block behind the end: what is appended is the first block of
   * the plaintext with the written bytes laid over it.
   */
  method OldBlockAppended(c: Codec, d: seq<byte>, p: nat, x: seq<byte>) returns (d': seq<byte>)
    requires Decode(c, 0, d).Some? && x != []
    requires Decode(c, 0, d).value != [] && Mod(|Decode(c, 0, d).value|, c.P) == 0
    requires |Decode(c, 0, d).value| <= p < |Decode(c, 0, d).value| + c.P
    ensures var a := Decode(c, 0, d).value;
            |a| >= c.P && Decode(c, 0, d') == Some(a + Splice(a[..c.P], p - |a|, x))
  {
    hide Off, Div, Mod, Stores, Decode, WriteAt, Splice, ZeroExtend, Chunk;
    ghost var a := Decode(c, 0, d).value;
    StoresIffDecodes(c, d, a);
    WholeBlocksFull(c.P, |a|);
    var node := new Inode(d);
    var file := new File(node);
    var w := new RingCryptoWriteSeek(c, file, a);
    LoadBySeek(w);
    ChunkZero(a, c.P);
    AppendOldBlock(w, p, x);
    StoresIffDecodes(c, node.bytes, a + Splice(a[..c.P], p - |a|, x));
    d' := node.bytes;
  }

  method AppendOldBlock(w: RingCryptoWriteSeek, p: nat, x: seq<byte>)
    requires w.Valid() && w.Stale(p) && x != [] && p < |w.Plain()| + w.inner.c.P
    modifies w.inner, w.inner.out, w.inner.out.node, w.inner.buf, w.inner.buf.data
    modifies w.decryptBuf, w.decryptBuf.data
    ensures |old(w.inner.buf.Content())| == w.inner.c.P
    ensures old(w.inner.buf.Content()) == Chunk(old(w.Plain()), old(w.inner.blockIndex), w.inner.c.P)
    ensures Stores(w.inner.c, w.inner.out.node.bytes,
                   old(w.Plain()) + Splice(old(w.inner.buf.Content()), p - |old(w.Plain())|, x))
  {
    hide Off, Div, Mod, Stores, WriteAt, Splice, ZeroExtend, Chunk, StateOf, AfterSeek, AfterWrite, SeekWriteGuard;
    StaleFacts(w, p, x);
    var r := SeekThenWrite(w, p, x);
    Finishable(w);
    var _ := w.Finish();
  }

  /** A seek alone leaves the first block loaded and clean. */
  method LoadBySeek(w: RingCryptoWriteSeek)
    requires w.Valid() && w.inner.buf.Empty() && |w.Plain()| > 1
    modifies w.inner, w.inner.out, w.inner.out.node, w.inner.buf, w.inner.buf.data
    modifies w.decryptBuf, w.decryptBuf.data
    ensures w.Valid() && !w.inner.buf.dirty && w.inner.buf.available > 0 && w.Plain() == old(w.Plain())
    ensures w.inner.blockIndex == 0
  {
    hide Off, Div, Mod, Stores, WriteAt, Splice, ZeroExtend, Chunk;
    ExtendsTo(w.Plain(), 0, 1);
    var s := w.Seek(Start(1));
    PosInFirstBlock(w);
  }

  method SeekPastEnd(w: RingCryptoWriteSeek, len: nat) returns (r: Result<nat>)
    requires w.Valid() && !w.inner.buf.dirty && w.inner.buf.available > 0
    requires len == |w.Plain()| && Mod(len, w.inner.c.P) == 0
    modifies w.inner, w.inner.out, w.inner.out.node, w.inner.buf, w.inner.buf.data
    modifies w.decryptBuf, w.decryptBuf.data
    ensures r == Ok(len + 1)
    ensures Decode(w.inner.c, 0, w.inner.out.node.bytes) == Some(old(w.Plain()))
  {
    hide Off, Div, Mod, Stores, Decode, WriteAt, Splice, ZeroExtend;
    r := w.Seek(Start(len + 1));
    var _ := w.Finish();
    StoresIffDecodes(w.inner.c, w.inner.out.node.bytes, old(w.Plain()));
  }

  lemma WholeBlocksFull(P: nat, n: nat)
    requires P > 0 && n > 0 && Mod(n, P) == 0
    ensures n >= P
  {
  }

  lemma PosInFirstBlock(w: RingCryptoWriteSeek)
    requires w.Valid() && w.Pos() == 1
    ensures w.inner.buf.available > 0 && w.inner.blockIndex == 0
  {
    hide Off, Stores;
    OffStep(0, w.inner.c.P);
    if w.inner.blockIndex > 0 { OffMono(0, w.inner.blockIndex, w.inner.c.P); }
  }

  /**
   * Sealing fewer bytes than the stored block holds leaves, under the toy cipher, a stream that does not
   * decode to the positioned write unless the byte behind the write happens to be the tag's.
   */
  lemma ShortBlockCorrupts(c: Codec, d: seq<byte>, a: seq<byte>, k: nat, nonce: Nonce, x: seq<byte>)
    requires c.aead == ToyAead() && Stores(c, d, a)
    requires 0 < |x| < c.P && Off(k, c.P) + |x| < |a|
    requires a[Off(k, c.P) + |x|] as int != |x| % 256
    ensures Off(k, c.S()) <= |d|
    ensures Decode(c, 0, Splice(d, Off(k, c.S()), SealChunk(c, k, nonce, x))) != Some(WriteAt(a, Off(k, c.P), x))
  {
    hide Off, Decode, Splice, WriteAt;
    var off, poff := Off(k, c.S()), Off(k, c.P);
    BlockShape(c, d, a, k);
    var y := SealChunk(c, k, nonce, x);
    var d', a' := Splice(d, off, y), WriteAt(a, poff, x);
    StoresIffDecodes(c, d', a');
    if Stores(c, d', a') {
      assert |a'| == |a|;
      BlockShape(c, d', a', k);
      var j := NONCE_LEN + |x|;
      ChunkByte(d', k, c.S(), j);
      SpliceAt(d, off, y, off + j);
      assert y[j] == ToyTag(k, |x|)[0];
      ChunkByte(a', k, c.P, |x|);
      WriteAtInside(a, poff, x);
      SpliceAt(a, poff, x, poff + |x|);
    }
  }

  /**
   * Flushing a full block inside the plaintext and then writing less than the next block, under any
   * cipher: the finished stream is the positioned write exactly when the cipher opens the mixed block to
   * the block it should be. Under the toy cipher it does not, unless the byte behind the write happens to
   * be the tag's. `d` is what the flush left stored.
   */
  method WriteBehindFlush(w: RingCryptoWriteSeek, x: seq<byte>) returns (ghost d: seq<byte>)
    requires w.Valid() && w.inner.buf.dirty && w.inner.buf.posWrite == w.inner.c.P
    requires 0 < |x| < w.inner.c.P && w.Pos() + |x| < |w.Plain()|
    modifies w.inner, w.inner.out, w.inner.out.node, w.inner.buf, w.inner.buf.data
    modifies w.decryptBuf, w.decryptBuf.data
    ensures Decode(w.inner.c, 0, d) == Some(old(w.Plain()))
    ensures var c, a, p := w.inner.c, old(w.Plain()), old(w.Pos());
            var k := old(w.inner.blockIndex) + 1;
            var got := OpenChunk(c, k, Mixed(c, d, k, w.inner.lastNonce, x));
            var after := Decode(c, 0, w.inner.out.node.bytes);
            && p == Off(k, c.P) <= |a|
            && after == Reopened(a, p, got)
            && (after == Some(WriteAt(a, p, x)) <==> got == Some(Splice(Chunk(a, k, c.P), 0, x)))
    ensures w.inner.c.aead == ToyAead() && old(w.Plain()[w.Pos() + |x|]) as int != |x| % 256 ==>
              Decode(w.inner.c, 0, w.inner.out.node.bytes) != Some(WriteAt(old(w.Plain()), old(w.Pos()), x))
  {
    hide Off, Div, Mod, Stores, Decode, WriteAt, Splice, Chunk, Mixed, Reopened;
    OffStep(w.inner.blockIndex, w.inner.c.P);
    FlushFull(w);
    ghost var a, k := w.Plain(), w.inner.blockIndex;
    d := w.inner.out.node.bytes;
    StoresIffDecodes(w.inner.c, d, a);
    HitAndFinish(w, x);
    ShortBlocks.ShortBlock(w.inner.c, d, a, k, w.inner.lastNonce, x);
    if w.inner.c.aead == ToyAead() && a[Off(k, w.inner.c.P) + |x|] as int != |x| % 256 {
      ShortBlockCorrupts(w.inner.c, d, a, k, w.inner.lastNonce, x);
    }
  }

  /**
   * What a seek to another block does first with a front that is pending: it is stored over the front of its
   * block, and what the stream decodes to is up to the cipher.
   */
  method LeaveFront(w: RingCryptoWriteSeek)
    requires w.Front()
    modifies w.inner, w.inner.out, w.inner.out.node, w.inner.buf, w.inner.buf.data
    ensures var a, k, x := old(w.inner.stored), old(w.inner.blockIndex), old(w.inner.buf.Content());
            && StoredShort(w.inner.c, a, k, x, w.inner.out.node.bytes)
            && old(w.Plain()) == WriteAt(a, Off(k, w.inner.c.P), x)
    ensures w.inner.stored == old(w.Plain()) && !w.inner.buf.dirty
  {
    hide Off, Div, Mod, Stores, WriteAt, Splice, Chunk, StoredShort;
    ghost var c, d, a, k, x := w.inner.c, w.inner.out.node.bytes, w.inner.stored, w.inner.blockIndex, w.inner.buf.Content();
    WriteAtInside(a, Off(k, c.P), x);
    w.StorePending();
    CutIsShort(c, d, a, k, w.inner.lastNonce, x);
  }

  /** A short write into an unloaded block, stored as it is. */
  method HitAndFinish(w: RingCryptoWriteSeek, x: seq<byte>)
    requires w.Valid() && w.Unloaded() && 0 < |x| < w.inner.c.P && w.Pos() + |x| < |w.Plain()|
    modifies w.inner, w.inner.out, w.inner.out.node, w.inner.buf, w.inner.buf.data
    modifies w.decryptBuf, w.decryptBuf.data
    ensures var k, d := old(w.inner.blockIndex), old(w.inner.out.node.bytes);
            && Off(k, w.inner.c.S()) <= |d|
            && w.inner.out.node.bytes == Splice(d, Off(k, w.inner.c.S()), SealChunk(w.inner.c, k, w.inner.lastNonce, x))
  {
    hide Off, Div, Mod, Stores, WriteAt, Splice, Chunk;
    ghost var a, k := w.Plain(), w.inner.blockIndex;
    UnloadedState(w);
    w.inner.CursorOffset();
    assert x[..|x|] == x;
    var _ := w.Write(x);
    w.CursorBlock();
    DivIs(w.Pos(), w.inner.c.P, k);
    WriteAtInside(a, Off(k, w.inner.c.P), x);
    SpliceInjective(a, Off(k, w.inner.c.P), w.inner.buf.Content(), x);
    var _ := w.Finish();
  }

  lemma SpliceInjective(s: seq<byte>, off: nat, x: seq<byte>, y: seq<byte>)
    requires off <= |s| && |x| == |y|
    ensures Splice(s, off, x) == Splice(s, off, y) ==> x == y
  {
    assert Splice(s, off, x)[off..off + |x|] == x && Splice(s, off, y)[off..off + |y|] == y;
  }

  method FlushFull(w: RingCryptoWriteSeek)
    requires w.Valid() && w.inner.buf.dirty && w.inner.buf.posWrite == w.inner.c.P && w.Pos() < |w.Plain()|
    modifies w.inner, w.inner.out, w.inner.out.node, w.inner.buf, w.inner.buf.data
    ensures w.Valid() && w.Plain() == old(w.Plain()) && w.Pos() == old(w.Pos()) && w.Unloaded()
    ensures w.inner.blockIndex == old(w.inner.blockIndex) + 1 && w.inner.stored == w.Plain()
  {
    hide Off, Div, Mod, Stores, Splice, Chunk;
    var P, k := w.inner.c.P, w.inner.blockIndex;
    OffStep(k, P);
    var _ := w.Flush();
    OffDiv(k + 1, P);
    OffDiv(w.inner.blockIndex, P);
  }

  /**
   * Behind a flushed block, whatever the cipher: `x`, a gap that a seek leaves, and `y` up to the end of the
   * block are stored with zeros in the gap, which are what was there exactly if it was zero already.
   */
  method FillBehindFlush(w: RingCryptoWriteSeek, x: seq<byte>, gap: nat, y: seq<byte>)
    requires w.Valid() && w.Unloaded() && x != [] && y != [] && |x| + gap + |y| == w.inner.c.P
    requires w.Pos() + |x| < |w.Plain()|
    modifies w.inner, w.inner.out, w.inner.out.node, w.inner.buf, w.inner.buf.data
    modifies w.decryptBuf, w.decryptBuf.data
    ensures var a, p := old(w.Plain()), old(w.Pos());
            && Decode(w.inner.c, 0, w.inner.out.node.bytes) == Some(WriteAt(a, p, x + Zeros(gap) + y))
            && (WriteAt(a, p, x + Zeros(gap) + y) == WriteAt(WriteAt(a, p, x), p + |x| + gap, y) <==>
                ZeroFrom(a, p + |x|, p + |x| + gap))
  {
    hide Off, Div, Mod, Stores, Decode, WriteAt, Splice, Chunk, StateOf, AfterSeek, AfterWrite;
    ghost var P, s := w.inner.c.P, StateOf(w);
    UnloadedState(w);
    FillsFront(P, s, x, gap, y);
    var _ := StepWrite(w, x);
    var p := w.Pos() + gap;
    PlainOf(w);
    StepSeek(w, p);
    var _ := StepWrite(w, y);
    Finishable(w);
    var _ := w.Finish();
    StoresIffDecodes(w.inner.c, w.inner.out.node.bytes, WriteAt(s.a, s.pos, x + Zeros(gap) + y));
    GapKept(s.a, s.pos, x, gap, y);
  }

  lemma UnloadedState(w: RingCryptoWriteSeek)
    requires w.Valid() && w.Unloaded()
    ensures StateOf(w) == State(w.Plain(), w.Pos(), Unloaded) && Mod(w.Pos(), w.inner.c.P) == 0
  {
    hide Off, Div, Mod, Stores, Chunk, Splice;
    w.CursorBlock();
  }

  lemma FillsFront(P: nat, s: State, x: seq<byte>, gap: nat, y: seq<byte>)
    requires P > 0 && s.State? && s.cache.Unloaded? && Mod(s.pos, P) == 0
    requires x != [] && y != [] && |x| + gap + |y| == P && s.pos + |x| < |s.a|
    ensures var s1 := AfterWrite(P, s, x);
            var s2 := AfterSeek(P, s1, s.pos + |x| + gap);
            && s1.State? && s1.pos == s.pos + |x| && s2.State? && s2.pos == s1.pos + gap
            && AfterWrite(P, s2, y).a == WriteAt(s.a, s.pos, x + Zeros(gap) + y)
            && !AfterWrite(P, s2, y).cache.Front?
  {
    hide Off, Div, Mod, WriteAt;
    var t := s.pos + |x| + gap;
    DivMod(s.pos, P);
    DivIs(s.pos + |x|, P, Div(s.pos, P));
    DivIs(t, P, Div(s.pos, P));
    WriteAtTwice(s.a, s.pos, x, Zeros(gap));
    WriteAtTwice(s.a, s.pos, x + Zeros(gap), y);
    if gap == 0 { assert x + Zeros(0) == x; }
  }

  lemma GapKept(a: seq<byte>, p: nat, x: seq<byte>, gap: nat, y: seq<byte>)
    requires p + |x| < |a|
    ensures WriteAt(a, p, x + Zeros(gap) + y) == WriteAt(WriteAt(a, p, x), p + |x| + gap, y) <==>
            ZeroFrom(a, p + |x|, p + |x| + gap)
  {
    hide WriteAt;
    WriteAtTwice(a, p, x, Zeros(gap));
    WriteAtTwice(a, p, x + Zeros(gap), y);
    BehindWrite(a, p, x);
    GapThenWrite(WriteAt(a, p, x), p + |x|, p + |x| + gap, y);
  }

  lemma BehindWrite(a: seq<byte>, p: nat, x: seq<byte>)
    requires p + |x| < |a|
    ensures |WriteAt(a, p, x)| == |a|
    ensures forall i :: p + |x| <= i < |a| ==> WriteAt(a, p, x)[i] == a[i]
  {
    WriteAtInside(a, p, x);
  }

  /**
   * A block of zeros written over the first block of a zero plaintext, a flush, and one more zero byte
   * behind it: every byte written is the one already there, yet the stream no longer decodes to zeros.
   */
  method FlushThenWrite(P: nat, d: seq<byte>) returns (d': seq<byte>)
    requires P >= OVERHEAD
    requires Decode(Params(P, ToyAead()), 0, d) == Some(Zeros(2 * P))
    ensures Decode(Params(P, ToyAead()), 0, d') != Some(Zeros(2 * P))
  {
    hide Off, Div, Mod, Stores, Decode, WriteAt, Splice, ZeroExtend;
    ToyIsLawful();
    var c: Codec := Params(P, ToyAead());
    ghost var a := Zeros(2 * P);
    StoresIffDecodes(c, d, a);
    var node := new Inode(d);
    var file := new File(node);
    var w := new RingCryptoWriteSeek(c, file, a);
    WriteFirstBlock(w);
    FullAt(w);
    ZerosOverZeros(2 * P, P, 1);
    assert Zeros(1) == [0];
    ghost var _ := WriteBehindFlush(w, [0]);
    d' := node.bytes;
  }

  method WriteFirstBlock(w: RingCryptoWriteSeek)
    requires w.Valid() && !w.Unloaded() && w.Pos() == 0 && w.Plain() == Zeros(2 * w.inner.c.P)
    modifies w.inner, w.inner.out, w.inner.out.node, w.inner.buf, w.inner.buf.data
    modifies w.decryptBuf, w.decryptBuf.data
    ensures w.Valid() && w.Plain() == old(w.Plain()) && w.Pos() == w.inner.c.P
    ensures w.inner.buf.dirty && w.inner.buf.posWrite > 0
  {
    hide Off, Div, Mod, Stores, WriteAt, Splice, Chunk;
    w.Here();
    w.inner.CursorOffset();
    ZerosOverZeros(2 * w.inner.c.P, 0, w.inner.c.P);
    var _ := w.WriteAll(Zeros(w.inner.c.P));
  }

  lemma ZerosOverZeros(n: nat, p: nat, m: nat)
    requires p + m <= n
    ensures WriteAt(Zeros(n), p, Zeros(m)) == Zeros(n)
  {
    WriteAtInside(Zeros(n), p, Zeros(m));
  }

  /** A buffer in use whose cursor is at the end of block 0 holds block 0. */
  lemma FullAt(w: RingCryptoWriteSeek)
    requires w.Valid() && w.Pos() == w.inner.c.P && w.inner.buf.posWrite > 0
    ensures w.inner.buf.posWrite == w.inner.c.P
  {
    hide Off, Div, Mod, Stores;
    var P, k := w.inner.c.P, w.inner.blockIndex;
    OffStep(0, P);
    if k > 0 { OffMono(0, k, P); }
  }
}
