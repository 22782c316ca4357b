/** The encrypting writer with random access: read-modify-write through one cached block. */
module CryptoWriteSeek {
  import opened Bytes
  import opened Layout
  import opened Buffers
  import opened CryptoWrite

  class RingCryptoWriteSeek {
    const inner: RingCryptoWrite
    const decryptBuf: BufMut

    /** The parts are separate objects and the scratch buffer holds one stored block. */
    ghost predicate Separate()
    {
      && decryptBuf != inner.buf && decryptBuf.data != inner.buf.data
      && decryptBuf.data.Length == inner.c.S()
    }

    ghost predicate Valid()
      reads inner, inner.out, inner.out.node, inner.buf, inner.buf.data
    {
      Separate() && inner.Valid() && !inner.finished
    }

    /** The plaintext as a reader of the finished stream would see it. */
    ghost function Plain(): seq<byte>
      reads inner, inner.out, inner.out.node, inner.buf, inner.buf.data
    {
      inner.Plain()
    }

    function Pos(): nat
      reads inner, inner.buf
    {
      inner.Pos()
    }

    /** The block at the cursor is stored, but was not loaded: a full block before it was just flushed. */
    ghost predicate Unloaded()
      reads inner, inner.buf
    {
      && inner.buf.available == 0 && !inner.buf.dirty && inner.blockIndex > 0
      && Off(inner.blockIndex, inner.c.P) < |inner.stored|
    }

    /**
     * A seek to `p` would keep a clean loaded block as if it were the one past the end: the plaintext
     * is a whole number of blocks and `p` is not inside it.
     */
    ghost predicate Stale(p: nat)
      reads inner, inner.buf
    {
      && !inner.buf.dirty && inner.buf.available > 0
      && Mod(|inner.stored|, inner.c.P) == 0 && |inner.stored| <= p
    }

    /** A full block is pending, with the cursor at its end. */
    ghost predicate Full()
      reads inner, inner.buf
    {
      inner.buf.dirty && inner.buf.posWrite == inner.c.P
    }

    /**
     * Where a stale seek leads: a clean full block stays in the buffer under the index behind the last
     * stored block.
     */
    ghost predicate Leftover()
      reads inner, inner.out, inner.out.node, inner.buf
    {
      Separate() && inner.Leftover() && !inner.finished
    }

    /**
     * Where a short write into an unloaded block leads: only the front of the stored block is pending over it.
     * The plaintext counts it as written; what is stored behind it comes back only if the rest of the block
     * is written too before the front is stored.
     */
    ghost predicate Front()
      reads inner, inner.out, inner.out.node, inner.buf
    {
      Separate() && inner.Front() && !inner.finished
    }

    /** What holds between calls. */
    ghost predicate Live()
      reads inner, inner.out, inner.out.node, inner.buf, inner.buf.data
    {
      Valid() || Leftover() || Front()
    }

    /** A left-over block with the cursor at its end takes no bytes. */
    ghost predicate Stuck()
      reads inner, inner.out, inner.out.node, inner.buf
    {
      Leftover() && inner.buf.posWrite == inner.c.P
    }

    /** The end of what the buffer holds. */
    ghost function FrontEnd(): nat
      reads inner, inner.buf
    {
      Off(inner.blockIndex, inner.c.P) + inner.buf.available
    }

    /** From the end of a leftover block, the target lies in the block behind it. */
    ghost predicate Restarts(p: nat)
      reads inner, inner.out, inner.out.node, inner.buf
    {
      && Leftover() && inner.buf.posWrite == inner.c.P
      && p != Pos() && Div(p, inner.c.P) == Div(Pos(), inner.c.P)
    }

    /** The length that seeks from the end are measured with. */
    ghost function EndLen(): int
      reads inner, inner.out, inner.out.node, inner.buf, inner.buf.data
    {
      if inner.buf.dirty && inner.blockIndex == Div(|inner.stored|, inner.c.P)
      then FrontEnd()
      else Reach(inner.c.P, |Plain()|)
    }

    ghost function Target(from: SeekFrom): int
      reads inner, inner.out, inner.out.node, inner.buf, inner.buf.data
    {
      match from
      case Start(p) => p
      case End(d) => EndLen() + d
      case Current(d) => Pos() + d
    }

    twostate predicate Untouched()
      reads inner, inner.out, inner.out.node, inner.buf, inner.buf.data
    {
      unchanged(inner, inner.out, inner.out.node, inner.buf, inner.buf.data)
    }

    /** The cursor is at `t` and the plaintext zero-extended to it; a clean buffer stores nothing on the way. */
    twostate predicate Landed(t: nat)
      reads inner, inner.out, inner.out.node, inner.buf, inner.buf.data
    {
      && Valid() && Pos() == t && Plain() == ZeroExtend(old(Plain()), t)
      && (!old(inner.buf.dirty) && t <= |old(Plain())| ==>
            && !inner.buf.dirty
            && inner.out.node.bytes == old(inner.out.node.bytes) && inner.stored == old(inner.stored))
    }

    /** Which block the buffer holds after a seek that moved the cursor to `t`, and whether it is pending. */
    twostate predicate Cached(t: nat)
      reads inner, inner.out, inner.out.node, inner.buf, inner.buf.data
    {
      var n := |old(Plain())|;
      && (inner.buf.dirty <==> t > n || old(Stays(t)))
      && (!inner.buf.dirty ==> (inner.buf.available > 0 <==> !(Mod(n, inner.c.P) == 0 && n == t)))
      && (if t > n then inner.buf.posWrite > 0 else inner.buf.posWrite < inner.c.P)
    }

    /** The old block is left over, with the cursor at `t`; nothing is stored. */
    twostate predicate Left(t: int)
      reads inner, inner.out, inner.out.node, inner.buf, inner.buf.data
    {
      && Leftover() && Pos() == t
      && inner.out.node.bytes == old(inner.out.node.bytes) && inner.stored == old(inner.stored)
      && old(inner.buf.Valid()) && inner.buf.Content() == old(inner.buf.Content())
    }

    /** The left-over block was appended, with a block of zeros laid over it from where the cursor fell back to. */
    twostate predicate Restarted(t: nat)
      reads inner, inner.out, inner.out.node, inner.buf, inner.buf.data
    {
      && Valid() && Pos() == t && inner.buf.dirty && inner.buf.posWrite > 0 && t >= inner.c.P
      && Plain() == WriteAt(old(inner.Laid()), t - inner.c.P, Zeros(inner.c.P))
    }

    /** Within a front the cursor moves; behind it, up to the cursor, the stored bytes become zeros. */
    twostate predicate Filled(t: nat)
      reads inner, inner.out, inner.out.node, inner.buf, inner.buf.data
    {
      && Pos() == t && inner.buf.dirty && inner.buf.posWrite < inner.c.P
      && (Valid() <==> !Front())
      && if t <= old(FrontEnd()) then Front() && FrontEnd() == old(FrontEnd()) && Plain() == old(Plain())
         else
           && Plain() == WriteAt(old(Plain()), old(FrontEnd()), Zeros(t - old(FrontEnd())))
           && (Front() <==> t < |Plain()|) && (Front() ==> FrontEnd() == t)
    }

    constructor (c: Codec, out: File, ghost stored: seq<byte>)
      requires Stores(c, out.node.bytes, stored) && out.pos == 0
      ensures inner.c == c && inner.out == out && fresh(inner) && fresh(inner.buf) && fresh(inner.buf.data)
      ensures fresh(decryptBuf) && fresh(decryptBuf.data)
      ensures Valid() && Pos() == 0 && Plain() == stored && inner.stored == stored && inner.buf.Empty()
      ensures !Unloaded()
    {
      inner := new RingCryptoWrite(c, out, stored);
      decryptBuf := new BufMut(c.S());
      new;
      assert inner.Valid();
      OffStep(0, c.P);
    }

    /** Loads the stored block under the output cursor, if there is one; otherwise the buffer is left as it is. */
    method LoadBlock() returns (r: Result<bool>)
      requires Separate() && inner.Sound() && !inner.buf.dirty
      requires Off(inner.blockIndex, inner.c.P) <= |inner.stored|
      requires inner.out.pos == Off(inner.blockIndex, inner.c.S())
      modifies inner`blockIndex, inner.out`pos, inner.buf, inner.buf.data, decryptBuf, decryptBuf.data
      ensures inner.Sound() && !inner.buf.dirty
      ensures inner.blockIndex == old(inner.blockIndex) && inner.out.pos == old(inner.out.pos)
      ensures if Off(inner.blockIndex, inner.c.P) < |inner.stored| then
                && r == Ok(true) && inner.buf.posWrite == 0 && inner.buf.available > 0
                && inner.buf.Content() == Chunk(inner.stored, inner.blockIndex, inner.c.P)
              else r == Ok(false) && unchanged(inner.buf, inner.buf.data)
    {
      hide Off, Stores, Chunk;
      ghost var k, d := inner.blockIndex, inner.out.node.bytes;
      BlockShape(inner.c, d, inner.stored, k);
      ChunkAhead(inner.out, k, inner.c.S());
      var next := DecryptBlock(inner.c, inner.blockIndex, decryptBuf, inner.out);
      match next {
        case Err(e) => return Err(e);
        case Ok(i) =>
          if i == inner.blockIndex { return Ok(false); }
          inner.blockIndex := i;
      }
      inner.buf.Clear();
      inner.blockIndex := inner.blockIndex - 1;
      inner.out.SeekStart(Off(inner.blockIndex, inner.c.S()));
      var len := decryptBuf.AvailableRead();
      var _ := inner.buf.SeekAvailable(Start(len));
      var src := decryptBuf.data[decryptBuf.posRead..decryptBuf.available];
      forall i | 0 <= i < len { inner.buf.data[i] := src[i]; }
      assert inner.buf.Content() == src;
      return Ok(true);
    }

    method GetPlaintextLen() returns (len: int)
      requires Live()
      ensures len == EndLen()
    {
      hide Off, Div, Mod, Stores, Chunk, Splice;
      var P := inner.c.P;
      var stored := |inner.out.node.bytes|;
      assert stored == StoredLen(P, |inner.stored|) by { StoredSize(inner.c, inner.out.node.bytes, inner.stored); }
      StoredDiv(P, |inner.stored|);
      ReportedLenExact(P, |inner.stored|);
      DivMod(|inner.stored|, P);
      inner.LaidLen();
      ChunkFull(inner.stored, inner.blockIndex, P);
      if inner.blockIndex > 0 { OffMono(0, inner.blockIndex, P); }
      if stored == 0 && inner.buf.available == 0 {
        return 0;
      }
      var last := Div(stored, inner.c.S());
      if inner.blockIndex == last && inner.buf.dirty {
        return Off(inner.blockIndex, P) + inner.buf.available;
      }
      assert |Plain()| == |inner.stored| by {
        if inner.buf.dirty {
          if last < inner.blockIndex { OffMono(last, inner.blockIndex, P); } else { OffMono(inner.blockIndex, last, P); }
        }
      }
      return stored - (Div(stored, inner.c.S()) + 1) * OVERHEAD;
    }

    /** Seeks from the end are measured from the true end exactly with a whole last block pending, or off the block boundary. */
    lemma EndIsEnd()
      requires Live()
      ensures EndLen() == |Plain()| <==>
                if inner.buf.dirty && inner.blockIndex == Div(|inner.stored|, inner.c.P) then !Front()
                else Plain() == [] || Mod(|Plain()|, inner.c.P) != 0
    {
      hide Off, Div, Mod, Stores, Chunk, Splice;
      inner.LaidLen();
      DivMod(|inner.stored|, inner.c.P);
    }

    /** On the first use of a fresh writer: load block 0, if there is one. */
    method LoadFirst()
      requires Valid() && Pos() == 0 && inner.buf.available == 0
      modifies inner`blockIndex, inner.out`pos, inner.buf, inner.buf.data, decryptBuf, decryptBuf.data
      ensures Valid() && Plain() == old(Plain()) && Pos() == 0 && inner.blockIndex == 0
      ensures !inner.buf.dirty && (Plain() != [] <==> inner.buf.available > 0)
      ensures inner.out.node.bytes == old(inner.out.node.bytes)
    {
      hide Off, Div, Mod, Stores, Chunk, Splice;
      OffStep(0, inner.c.P);
      OffStep(0, inner.c.S());
      inner.out.SeekStart(0);
      inner.blockIndex := 0;
      var _ := LoadBlock();
    }

    /** Leaves an empty or complete block for the one at the cursor. */
    method StoreAndLoad()
      requires Leftover() || Valid()
      requires Valid() ==> inner.buf.available == 0 || (inner.buf.dirty && inner.buf.posWrite == inner.c.P)
      modifies inner, inner.out, inner.out.node, inner.buf, inner.buf.data, decryptBuf, decryptBuf.data
      ensures old(Leftover()) ==> Untouched()
      ensures !old(inner.buf.dirty) ==> inner.out.node.bytes == old(inner.out.node.bytes)
      ensures old(Valid()) ==>
                && Valid() && Plain() == old(Plain()) && Pos() == old(Pos())
                && !inner.buf.dirty && inner.buf.posWrite == 0
                && (inner.buf.available > 0 <==> Pos() < |Plain()|)
    {
      hide Off, Div, Mod, Stores, Chunk, Splice;
      if inner.buf.dirty {
        inner.EncryptAndWrite();
      }
      var _ := LoadBlock();
    }

    /**
     * The new position lies in the block of the old one. A leftover block stays where it is, and the
     * cursor goes to the same place in it; a front stays pending.
     */
    method SeekInBlock(p: nat)
      requires Live() && p != Pos() && Div(p, inner.c.P) == Div(Pos(), inner.c.P)
      modifies inner, inner.out, inner.out.node, inner.buf, inner.buf.data, decryptBuf, decryptBuf.data
      ensures !old(inner.buf.dirty) ==> !inner.buf.dirty && inner.out.node.bytes == old(inner.out.node.bytes)
      ensures old(Valid()) ==>
                && Valid() && Plain() == old(Plain()) && !Unloaded()
                && Pos() <= p
                && (Pos() < p ==> inner.AtEnd() && inner.buf.posWrite == inner.buf.available)
                && (inner.buf.dirty <==> old(inner.buf.dirty && inner.buf.posWrite < inner.c.P))
                && inner.buf.posWrite < inner.c.P && CleanHolds(p)
      ensures old(Leftover()) ==>
                && Leftover() && inner.stored == old(inner.stored) && inner.buf.Content() == old(inner.buf.Content())
                && Pos() == if old(inner.buf.posWrite) == inner.c.P then p - inner.c.P else p
      ensures old(Front()) ==>
                && Front() && inner.stored == old(inner.stored) && inner.out.node.bytes == old(inner.out.node.bytes)
                && Plain() == old(Plain()) && FrontEnd() == old(FrontEnd()) && Pos() == Min(p, FrontEnd())
                && inner.buf.posWrite < inner.c.P
    {
      hide Off, Div, Mod, Stores, Chunk, Splice;
      EnterBlock(p);
      DivMod(p, inner.c.P);
      OffStep(inner.blockIndex, inner.c.P);
      ChunkFull(inner.stored, inner.blockIndex, inner.c.P);
      if Leftover() { LeftoverBlock(); } else if Valid() { BlockOfEnd(p); }
      LandInBlock(p);
    }

    /** There is a block at `p` exactly when the plaintext does not end, in whole blocks, at or before it. */
    lemma BlockOfEnd(p: nat)
      requires inner.blockIndex == Div(p, inner.c.P) && Off(inner.blockIndex, inner.c.P) <= |inner.stored|
      ensures Off(inner.blockIndex, inner.c.P) < |inner.stored| <==>
              !(Mod(|inner.stored|, inner.c.P) == 0 && |inner.stored| <= p)
    {
      hide Off, Div, Mod;
      var P, n := inner.c.P, |inner.stored|;
      DivMod(p, P);
      if n <= p { DivIs(n, P, inner.blockIndex); }
    }

    /** A clean buffer holds a block exactly when a seek to `p` has one to find. */
    ghost predicate CleanHolds(p: nat)
      reads inner, inner.buf
    {
      !inner.buf.dirty ==>
        (inner.buf.available > 0 <==> !(Mod(|inner.stored|, inner.c.P) == 0 && |inner.stored| <= p))
    }

    /** Loads the block of the cursor, unless its bytes are in the buffer already. */
    method EnterBlock(p: nat)
      requires Live() && p != Pos() && Div(p, inner.c.P) == Div(Pos(), inner.c.P)
      modifies inner, inner.out, inner.out.node, inner.buf, inner.buf.data, decryptBuf, decryptBuf.data
      ensures !old(inner.buf.dirty) ==> !inner.buf.dirty && inner.out.node.bytes == old(inner.out.node.bytes)
      ensures old(Leftover()) ==>
                Untouched() && Div(p, inner.c.P) == inner.blockIndex + (if inner.buf.posWrite == inner.c.P then 1 else 0)
      ensures old(Front()) ==> Untouched() && inner.blockIndex == Div(p, inner.c.P)
      ensures old(Valid()) ==>
                && Valid() && Plain() == old(Plain()) && !Unloaded() && inner.blockIndex == Div(p, inner.c.P)
                && inner.buf.posWrite < inner.c.P && (inner.buf.available == 0 ==> inner.AtEnd())
                && (inner.buf.dirty <==> old(inner.buf.dirty && inner.buf.posWrite < inner.c.P))
                && (!inner.buf.dirty ==> (inner.buf.available > 0 <==> Off(inner.blockIndex, inner.c.P) < |inner.stored|))
    {
      hide Off, Div, Mod, Stores, Chunk, Splice;
      if Pos() == 0 && inner.buf.available == 0 {
        LoadFirst();
      }
      if Leftover() { LeftoverBlock(); } else { CursorBlock(); }
      inner.CursorOffset();
      var atFullBlockEnd := Mod(Pos(), inner.c.P) == 0 && inner.buf.posWrite == inner.buf.available;
      if inner.buf.available == 0 || atFullBlockEnd {
        StoreAndLoad();
        if Valid() { CursorBlock(); }
      }
      ChunkFull(inner.stored, inner.blockIndex, inner.c.P);
    }

    /** Which block the cursor is in when a block is left over. */
    lemma LeftoverBlock()
      requires Leftover()
      ensures var P, o := inner.c.P, inner.buf.posWrite;
              && o <= P && Pos() == |inner.stored| + o
              && Div(Pos(), P) == (if o < P then inner.blockIndex else inner.blockIndex + 1)
              && Mod(Pos(), P) == (if o < P then o else 0)
              && Mod(|inner.stored|, P) == 0 && Div(|inner.stored|, P) == inner.blockIndex
      ensures !Valid() && inner.Laid() == inner.stored + inner.buf.Content()
    {
      hide Off, Div, Mod, Stores, Chunk;
      var P := inner.c.P;
      ChunkFull(inner.stored, inner.blockIndex, P);
      OffDiv(inner.blockIndex, P);
      OffStep(inner.blockIndex, P);
      if inner.buf.posWrite < P {
        DivIs(Pos(), P, inner.blockIndex);
      } else {
        OffDiv(inner.blockIndex + 1, P);
      }
    }

    lemma RestartsFacts(p: nat)
      requires Restarts(p)
      ensures Stale(p) && |inner.stored| < p - inner.c.P < |inner.stored| + inner.c.P
    {
      hide Off, Div, Mod, Stores, Chunk;
      LeftoverBlock();
      DivMod(p, inner.c.P);
      OffStep(inner.blockIndex, inner.c.P);
    }

    /** The cursor is in the pending block, or at the start of the next one. */
    lemma CursorBlock()
      requires Valid() || Front()
      ensures inner.buf.posWrite <= inner.c.P
      ensures inner.buf.posWrite < inner.c.P ==>
                Div(Pos(), inner.c.P) == inner.blockIndex && Mod(Pos(), inner.c.P) == inner.buf.posWrite
      ensures inner.buf.posWrite == inner.c.P ==>
                Div(Pos(), inner.c.P) == inner.blockIndex + 1 && Mod(Pos(), inner.c.P) == 0
      ensures inner.buf.posWrite == inner.c.P ==> inner.buf.dirty && inner.buf.available == inner.c.P
    {
      hide Off, Div, Mod, Stores, Chunk;
      if inner.buf.posWrite < inner.c.P {
        DivIs(Pos(), inner.c.P, inner.blockIndex);
      } else {
        OffStep(inner.blockIndex, inner.c.P);
        DivIs(Pos(), inner.c.P, inner.blockIndex + 1);
      }
    }

    /**
     * The new position lies in another block: go there, or to the last block there is. In the stale case
     * the old block stays in the buffer under the new index.
     */
    method SeekToBlock(p: nat)
      requires (Valid() || Leftover()) && Div(p, inner.c.P) != Div(Pos(), inner.c.P)
      modifies inner, inner.out, inner.out.node, inner.buf, inner.buf.data, decryptBuf, decryptBuf.data
      ensures !old(inner.buf.dirty) ==> !inner.buf.dirty && inner.out.node.bytes == old(inner.out.node.bytes)
      ensures !old(Stale(p)) ==>
                && Valid() && Plain() == old(Plain()) && !Unloaded()
                && Pos() <= p
                && (Pos() < p ==> inner.AtEnd() && inner.buf.posWrite == inner.buf.available)
                && !inner.buf.dirty && CleanHolds(p)
      ensures old(Stale(p)) ==>
                && Leftover() && inner.stored == old(inner.stored) && inner.buf.Content() == old(inner.buf.Content())
                && Pos() == Min(p, |inner.stored| + inner.c.P)
    {
      hide Off, Div, Mod, Stores, Chunk, Splice;
      var P, nb := inner.c.P, Div(p, inner.c.P);
      CleanIsStored();
      StorePending();
      var last := Div(|inner.out.node.bytes|, inner.c.S());
      TargetBlock(inner.c, inner.out.node.bytes, inner.stored, p);
      var target := Min(nb, last);
      GoTo(target);
      OffStep(0, P);
      ChunkFull(inner.stored, target, P);
      Land(p, nb);
    }

    /** A clean buffer in use holds a stored block, which is full when all are. */
    lemma CleanIsStored()
      requires Valid() || Leftover()
      ensures !inner.buf.dirty && inner.buf.available > 0 ==> |inner.stored| > 0
      ensures !inner.buf.dirty && inner.buf.available > 0 && Mod(|inner.stored|, inner.c.P) == 0 ==>
                inner.buf.available == inner.c.P
    {
      hide Off, Div, Mod, Stores, Chunk, Splice;
      FullBlocks(inner.stored, inner.blockIndex, inner.c.P);
      ChunkFull(inner.stored, inner.blockIndex, inner.c.P);
      if inner.blockIndex > 0 { OffStep(0, inner.c.P); OffMono(0, inner.blockIndex, inner.c.P); }
    }

    /** Stores what is pending; a front is stored as it is, over the front of its block. */
    method StorePending()
      requires Live()
      modifies inner, inner.out, inner.out.node, inner.buf, inner.buf.data
      ensures !inner.finished && !inner.buf.dirty && inner.stored == old(Plain())
      ensures !old(Front()) ==> inner.Sound()
      ensures if old(inner.buf.dirty) then inner.buf.Empty() else Untouched()
      ensures old(inner.buf.dirty) ==>
                && old(Off(inner.blockIndex, inner.c.S())) <= |old(inner.out.node.bytes)|
                && inner.out.node.bytes ==
                   Splice(old(inner.out.node.bytes), old(Off(inner.blockIndex, inner.c.S())),
                          SealChunk(inner.c, old(inner.blockIndex), inner.lastNonce, old(inner.buf.Content())))
    {
      hide Off, Div, Mod, Stores, Chunk, Splice;
      if inner.buf.dirty {
        inner.EncryptAndWrite();
      }
    }

    /** Moves to a block's place and loads the block, if there is one. */
    method GoTo(target: nat)
      requires Separate() && inner.Sound() && !inner.buf.dirty && Off(target, inner.c.P) <= |inner.stored|
      modifies inner`blockIndex, inner.out`pos, inner.buf, inner.buf.data, decryptBuf, decryptBuf.data
      ensures inner.Placed() && !inner.buf.dirty && inner.blockIndex == target
      ensures if Off(target, inner.c.P) < |inner.stored| then
                && inner.buf.available > 0 && inner.buf.posWrite == 0
                && inner.buf.Content() == Chunk(inner.stored, target, inner.c.P)
              else unchanged(inner.buf, inner.buf.data)
    {
      hide Off, Div, Mod, Stores, Chunk, Splice;
      BlockShape(inner.c, inner.out.node.bytes, inner.stored, target);
      inner.out.SeekStart(Off(target, inner.c.S()));
      inner.blockIndex := target;
      var _ := LoadBlock();
    }

    /** Puts the write cursor as far towards the target's offset in the block as the block goes. */
    method LandInBlock(p: nat)
      requires inner.buf.Valid()
      modifies inner.buf`posWrite, inner.buf`available
      ensures inner.buf.Valid() && inner.buf.available == old(inner.buf.available)
      ensures inner.buf.posWrite == Min(Mod(p, inner.c.P), inner.buf.available)
    {
      var _ := inner.buf.SeekWrite(Start(Min(Mod(p, inner.c.P), inner.buf.available)));
    }

    /** The same in the block `nb` of the target; in an earlier block, its end. */
    method Land(p: nat, nb: nat)
      requires inner.buf.Valid()
      modifies inner.buf`posWrite, inner.buf`available
      ensures inner.buf.Valid() && inner.buf.available == old(inner.buf.available)
      ensures inner.buf.posWrite ==
              if inner.blockIndex == nb then Min(Mod(p, inner.c.P), inner.buf.available) else inner.buf.available
    {
      if inner.blockIndex == nb {
        LandInBlock(p);
      } else {
        var _ := inner.buf.SeekWrite(Start(inner.buf.available));
      }
    }

    /** A position past a clean loaded block's stream is never in that block. */
    lemma StaleIsElsewhere(p: nat)
      requires Valid() && Stale(p)
      ensures Div(Pos(), inner.c.P) != Div(p, inner.c.P)
    {
      hide Off, Div, Mod, Stores, Chunk;
      var P, n := inner.c.P, |inner.stored|;
      CursorBlock();
      DivMod(n, P);
      DivMod(p, P);
      ChunkFull(inner.stored, inner.blockIndex, P);
      var q := Div(p, P);
      if q == inner.blockIndex {
        var k := Div(n, P);
        if k < q { OffMono(k, q, P); } else if q < k { OffMono(q, k, P); }
      }
    }

    /** The seek does not leave the block of a front that is pending. */
    ghost predicate Near(from: SeekFrom)
      reads inner, inner.out, inner.out.node, inner.buf, inner.buf.data
    {
      Front() ==> Target(from) < 0 || Stays(Target(from))
    }

    /**
     * Moves the cursor, zero-filling when the target is past the end; the plaintext is then extended as
     * it should. A stale seek instead leaves the old block in the buffer, to be taken for the one behind
     * the end, and reports success up to the end of that block; from its very end a further seek writes
     * a block of zeros too early. From a front the seek writes zeros over the stored bytes behind it.
     */
    method Seek(from: SeekFrom) returns (r: Result<nat>)
      requires Live() && Near(from)
      modifies inner, inner.out, inner.out.node, inner.buf, inner.buf.data, decryptBuf, decryptBuf.data
      ensures var t := old(Target(from));
              t < 0 ==> r == Err(InvalidInput) && Untouched()
      ensures var t := old(Target(from));
              t == old(Pos()) ==> r == Ok(t) && Untouched()
      ensures var t := old(Target(from));
              t >= 0 && !old(Front()) && !old(Stale(t)) ==>
                r == Ok(t) && Landed(t) && (t != old(Pos()) ==> Cached(t) && !Unloaded())
      ensures var t := old(Target(from));
              t >= 0 && old(Stale(t)) && !old(Restarts(t)) ==>
                && r == (if t <= |inner.stored| + inner.c.P then Ok(t) else Err(WriteZero))
                && !Valid() && Left(Min(t, |inner.stored| + inner.c.P))
      ensures var t := old(Target(from));
              t >= 0 && old(Restarts(t)) ==> r == Ok(t) && Restarted(t)
      ensures var t := old(Target(from));
              t >= 0 && old(Front()) ==> r == Ok(t) && Filled(t)
    {
      hide Off, Div, Mod, Stores, Splice, ZeroExtend, WriteAt, Chunk, Target;
      var t := Aim(from);
      if t < 0 { return Err(InvalidInput); }
      if t == Pos() {
        Here();
        return Ok(t);
      }
      r := SeekTo(t);
    }

    /** A seek by nothing from the cursor, which returns before it does anything. */
    method StreamPosition() returns (p: nat)
      ensures p == Pos()
    {
      return Pos();
    }

    method Aim(from: SeekFrom) returns (t: int)
      requires Live()
      ensures t == Target(from)
      ensures t == match from case Start(p) => p case End(d) => EndLen() + d case Current(d) => Pos() + d
    {
      hide Valid, Plain, Pos, Leftover, Front, EndLen;
      match from {
        case Start(p) => t := p;
        case End(d) => var len := GetPlaintextLen(); t := len + d;
        case Current(d) => t := Pos() + d;
      }
    }

    /** The present position is inside the plaintext, or in a left-over block. */
    lemma Here()
      requires Live()
      ensures Leftover() || Front() ==> !Valid()
      ensures !Leftover() ==> !Stale(Pos()) && ZeroExtend(Plain(), Pos()) == Plain()
      ensures Leftover() ==> Stale(Pos()) && |inner.stored| <= Pos() <= |inner.stored| + inner.c.P
      ensures Front() ==> Pos() <= FrontEnd() < |Plain()| && inner.buf.posWrite < inner.c.P && Stays(Pos())
    {
      hide Off, Div, Mod, Stores, Splice, Chunk;
      inner.LaidLen();
      if Leftover() {
        LeftoverBlock();
      } else {
        ExtendsTo(Plain(), Pos(), Pos());
        if Stale(Pos()) { StaleIsElsewhere(Pos()); }
      }
    }

    /** The seek to another position than the present one. */
    method SeekTo(t: nat) returns (r: Result<nat>)
      requires Live() && t != Pos() && (Front() ==> Stays(t))
      modifies inner, inner.out, inner.out.node, inner.buf, inner.buf.data, decryptBuf, decryptBuf.data
      ensures !old(Front()) && !old(Stale(t)) ==> r == Ok(t) && Landed(t) && Cached(t) && !Unloaded()
      ensures old(Stale(t)) && !old(Restarts(t)) ==>
                && r == (if t <= |inner.stored| + inner.c.P then Ok(t) else Err(WriteZero))
                && !Valid() && Left(Min(t, |inner.stored| + inner.c.P))
      ensures old(Restarts(t)) ==> r == Ok(t) && Restarted(t)
      ensures old(Front()) ==> r == Ok(t) && Filled(t)
    {
      hide Off, Div, Mod, Stores, Splice, ZeroExtend, WriteAt, Chunk, Separate, Live;
      hide RingCryptoWrite.Laid, RingCryptoWrite.Sound;
      ghost var front, stale, restarts, plain := Front(), Stale(t), Restarts(t), Plain();
      if restarts { RestartsFacts(t); LeftoverBlock(); }
      if front { FrontStays(t); }
      Approach(t);
      if stale && !front {
        LeftoverBlock();
      } else if !front {
        inner.PlainIsSplice();
        ExtendsTo(plain, Pos(), t);
      }
      assert restarts ==> inner.Laid() == old(inner.Laid());
      r := FillUp(t);
    }

    /** Behind a front its block goes on. */
    lemma FrontStays(t: nat)
      requires Front() && Stays(t)
      ensures !Valid() && !Leftover() && (t > FrontEnd() ==> Mod(t, inner.c.P) != 0)
    {
      hide Off, Div, Mod, Stores, Chunk;
      CursorBlock();
      DivMod(t, inner.c.P);
    }

    /** Writes zeros until the cursor is at the target. */
    method FillUp(t: nat) returns (r: Result<nat>)
      requires Separate() && (Pos() < t ==> ToCrypto(inner).Ready())
      requires Front() ==> inner.buf.posWrite < inner.c.P && (Pos() < t ==> inner.AtTip() && Mod(t, inner.c.P) != 0)
      modifies inner, inner.out, inner.out.node, inner.buf, inner.buf.data
      ensures old(Pos()) >= t ==> r == Ok(Pos()) && Untouched()
      ensures old(Pos()) < t && old(inner.Stuck()) ==> r == Err(WriteZero) && Untouched()
      ensures old(Pos()) < t && !old(inner.Stuck()) ==>
                && r == Ok(t) && Live() && !Leftover() && Pos() == t && inner.buf.dirty && inner.buf.posWrite > 0
                && Plain() == WriteAt(old(inner.Laid()), old(Pos()), Zeros(t - old(Pos())))
                && (old(inner.AtEnd()) ==> Valid() && !Front())
      ensures old(Front()) && old(Pos()) < t ==>
                && (Valid() <==> !Front()) && (Front() <==> t < |Plain()|) && (Front() ==> FrontEnd() == t)
                && inner.buf.posWrite < inner.c.P && old(inner.Laid()) == old(Plain())
    {
      hide Off, Div, Mod, Stores, Splice, WriteAt, Chunk, RingCryptoWrite.Laid, RingCryptoWrite.Plain, RingCryptoWrite.Sound;
      if Front() { inner.CursorOffset(); }
      if Pos() < t {
        var f := FillZeros(ToCrypto(inner), t - Pos());
        match f {
          case Err(e) => return Err(e);
          case Ok(_) =>
        }
        if inner.AtEnd() { inner.EndNotOverrun(0); }
        if inner.AtTip() { inner.TipFront(); inner.CursorOffset(); }
      }
      return Ok(Pos());
    }

    /** The pending block is that of the target, and stays pending. */
    ghost predicate Stays(t: nat)
      reads inner, inner.buf
    {
      inner.buf.dirty && inner.buf.posWrite < inner.c.P && Div(t, inner.c.P) == Div(Pos(), inner.c.P)
    }

    /** As near to the target as there are bytes. */
    method Approach(t: nat)
      requires Live() && t != Pos() && (Front() ==> Stays(t))
      modifies inner, inner.out, inner.out.node, inner.buf, inner.buf.data, decryptBuf, decryptBuf.data
      ensures !old(inner.buf.dirty) ==> !inner.buf.dirty && inner.out.node.bytes == old(inner.out.node.bytes)
      ensures !old(Front()) && !old(Stale(t)) ==>
                && Valid() && Plain() == old(Plain()) && !Unloaded()
                && Pos() == Min(t, |Plain()|) && (Pos() < t ==> inner.AtEnd())
                && (inner.buf.dirty <==> old(Stays(t))) && CleanHolds(t)
                && (inner.buf.dirty ==> inner.buf.posWrite < inner.c.P)
      ensures old(Stale(t)) ==>
                Left(if old(Restarts(t)) then t - inner.c.P else Min(t, |inner.stored| + inner.c.P))
      ensures old(Restarts(t)) ==> inner.buf.posWrite < inner.c.P
      ensures old(Front()) ==>
                && Front() && inner.stored == old(inner.stored) && inner.out.node.bytes == old(inner.out.node.bytes)
                && Plain() == old(Plain()) && FrontEnd() == old(FrontEnd()) && Pos() == Min(t, FrontEnd())
                && inner.buf.posWrite < inner.c.P
    {
      hide Off, Div, Mod, Stores, Splice, Chunk;
      if Leftover() {
        LeftoverBlock();
        DivMod(t, inner.c.P);
        OffStep(inner.blockIndex, inner.c.P);
      } else if Stale(t) {
        StaleIsElsewhere(t);
      }
      if Div(Pos(), inner.c.P) == Div(t, inner.c.P) {
        SeekInBlock(t);
      } else {
        SeekToBlock(t);
      }
      if Valid() { inner.PosInPlain(); inner.PlainIsSplice(); } else if Leftover() { LeftoverBlock(); }
    }

    /** A write of `n` bytes here replaces only the front of a stored block that was not loaded. */
    ghost predicate Overwrites(n: nat)
      reads inner, inner.out, inner.out.node, inner.buf, inner.buf.data
    {
      Unloaded() && 0 < n < inner.c.P && Pos() + n < |Plain()|
    }

    /** A write of `n` bytes here leaves only the front of a stored block pending. */
    ghost predicate Cuts(n: nat)
      reads inner, inner.out, inner.out.node, inner.buf, inner.buf.data
    {
      Overwrites(n) || (Front() && n > 0 && inner.FrontTo(inner.buf.posWrite + n))
    }

    /**
     * Takes bytes up to the end of the block: always the positioned write, a left-over block counting as
     * part of the plaintext. What is pending is only the front of a stored block exactly when the write hits
     * an unloaded block, or goes on in such a front, without covering the block.
     */
    method Write(src: seq<byte>) returns (r: Result<nat>)
      requires Live()
      modifies inner, inner.out, inner.out.node, inner.buf, inner.buf.data, decryptBuf, decryptBuf.data
      ensures r == Ok(if old(Stuck()) then 0 else Min(|src|, inner.c.P - Mod(old(Pos()), inner.c.P)))
      ensures Live() && Pos() == old(Pos()) + r.value && (src != [] && !old(Stuck()) ==> r.value > 0)
      ensures r.value > 0 ==>
                && inner.buf.dirty && inner.buf.posWrite > 0 && !Leftover()
                && Plain() == inner.Laid() == WriteAt(old(inner.Laid()), old(Pos()), src[..r.value])
                && (Front() <==> old(Cuts(|src|))) && (Valid() <==> !Front())
                && (Front() ==> FrontEnd() == if old(Front()) then Max(old(FrontEnd()), Pos()) else Pos())
      ensures r.value == 0 ==>
                && Plain() == old(Plain()) && (old(Valid()) ==> Valid())
                && if old(Valid() && (Full() || (Pos() == 0 && inner.buf.available == 0))) && src == [] then
                     !inner.buf.dirty && !Unloaded() && (inner.buf.available > 0 <==> Pos() < |Plain()|)
                   else Untouched()
      ensures !old(inner.buf.dirty) || old(Front()) ==>
                inner.out.node.bytes == old(inner.out.node.bytes) && inner.stored == old(inner.stored)
    {
      hide Off, Div, Mod, Stores, Splice, WriteAt, Chunk, RingCryptoWrite.Plain;
      hide RingCryptoWrite.Laid, RingCryptoWrite.Cuts, RingCryptoWrite.AtEnd, RingCryptoWrite.Overruns;
      hide RingCryptoWrite.Stuck, RingCryptoWrite.Sound;
      LoadForWrite(|src|);
      r := inner.Write(src);
      if r.value > 0 { inner.CursorOffset(); }
    }

    /** Loads the block that a write of `n` bytes goes to, when the buffer is fresh or full. */
    method LoadForWrite(n: nat)
      requires Live()
      modifies inner, inner.out, inner.out.node, inner.buf, inner.buf.data, decryptBuf, decryptBuf.data
      ensures !old(inner.buf.dirty) ==>
                inner.out.node.bytes == old(inner.out.node.bytes) && inner.stored == old(inner.stored) && !inner.buf.dirty
      ensures !old(Valid()) ==> Untouched()
      ensures Live() && inner.Pos() == old(Pos()) && inner.Plain() == old(Plain()) && inner.Laid() == old(inner.Laid())
      ensures inner.Cuts(n) == old(Cuts(n)) && !(inner.buf.dirty && inner.buf.posWrite == inner.c.P)
      ensures inner.Stuck() <==> old(Stuck())
      ensures old(Valid()) ==>
                && Valid()
                && (if old(Full() || (Pos() == 0 && inner.buf.available == 0)) then
                      !inner.buf.dirty && !Unloaded() && (inner.buf.available > 0 <==> Pos() < |Plain()|)
                    else Untouched())
      ensures old(Overwrites(n)) ==> Untouched() && inner.buf.available == 0 && inner.buf.posWrite == 0
    {
      hide Off, Div, Mod, Stores, Splice, Chunk, RingCryptoWrite.Cuts, RingCryptoWrite.Laid;
      OffStep(0, inner.c.P);
      if inner.blockIndex > 0 { OffMono(0, inner.blockIndex, inner.c.P); }
      if Leftover() { LeftoverBlock(); } else { CursorBlock(); }
      inner.CursorOffset();
      if Pos() == 0 && inner.buf.available == 0 {
        LoadFirst();
      } else if inner.buf.dirty && inner.buf.Remaining() == 0 {
        LoadNext();
      }
      inner.CursorOffset();
      CutsHere(n);
    }

    /** With the cursor's block loaded, if it is to be, the buffer cuts what the writer does. */
    lemma CutsHere(n: nat)
      requires Live() && !Full() && (Pos() == 0 && inner.buf.available == 0 ==> Plain() == [])
      ensures inner.Cuts(n) <==> Cuts(n)
    {
      hide Off, Div, Mod, Stores, Splice, Chunk;
      OffStep(0, inner.c.P);
      ChunkFull(inner.stored, inner.blockIndex, inner.c.P);
      if inner.blockIndex > 0 { OffMono(0, inner.blockIndex, inner.c.P); }
      inner.CursorOffset();
    }

    /** After a full block: store it and load the one behind it, if any. */
    method LoadNext()
      requires Valid() && inner.buf.dirty && inner.buf.posWrite == inner.c.P
      modifies inner, inner.out, inner.out.node, inner.buf, inner.buf.data, decryptBuf, decryptBuf.data
      ensures Valid() && Plain() == old(Plain()) && Pos() == old(Pos())
      ensures !inner.buf.dirty && !Unloaded() && (inner.buf.available > 0 <==> Pos() < |Plain()|)
    {
      hide Off, Div, Mod, Stores, Splice, Chunk;
      var _ := Flush();
      CursorBlock();
      var blockIndex := Div(Pos(), inner.c.P);
      BlockShape(inner.c, inner.out.node.bytes, inner.stored, blockIndex);
      if |inner.out.node.bytes| > Off(blockIndex, inner.c.S()) {
        var _ := LoadBlock();
      }
    }

    /** Write until nothing is left, or until nothing is taken: that is at the end of a left-over block. */
    method WriteAll(src: seq<byte>) returns (r: Result<()>)
      requires Live()
      modifies inner, inner.out, inner.out.node, inner.buf, inner.buf.data, decryptBuf, decryptBuf.data
      ensures r == if src != [] && old(Stuck()) then Err(WriteZero) else Ok(())
      ensures Live() && (r.Err? || src == [] ==> Untouched())
      ensures r.Ok? && src != [] ==>
                && Plain() == inner.Laid() == WriteAt(old(inner.Laid()), old(Pos()), src)
                && Pos() == old(Pos()) + |src| && inner.buf.dirty && inner.buf.posWrite > 0 && !Leftover()
                && (Front() <==> old(Cuts(|src|))) && (Valid() <==> !Front())
                && (Front() ==> FrontEnd() == if old(Front()) then Max(old(FrontEnd()), Pos()) else Pos())
    {
      hide Off, Div, Mod, Stores, Splice, WriteAt, Chunk, Valid, Plain, Pos, Front, Leftover, Live, Stuck, Cuts;
      hide FrontEnd, RingCryptoWrite.Laid;
      if src == [] { return Ok(()); }
      ghost var bad, stuck := Cuts(|src|), Stuck();
      var done := 0;
      while done < |src|
        invariant done <= |src|
        invariant done == 0 ==> Untouched() && Cuts(|src|) == bad
        invariant stuck ==> done == 0
        invariant bad && done > 0 ==> done == |src|
        invariant Live()
        invariant done > 0 ==>
                    && Plain() == inner.Laid() == WriteAt(old(inner.Laid()), old(Pos()), src[..done])
                    && Pos() == old(Pos()) + done && inner.buf.dirty && inner.buf.posWrite > 0 && !Leftover()
                    && (Front() <==> bad && done == |src|) && (Valid() <==> !Front())
                    && (Front() ==> FrontEnd() == if old(Front()) then Max(old(FrontEnd()), Pos()) else Pos())
      {
        if done == 0 { assert src[done..] == src; } else { DirtyIsLoaded(|src[done..]|); }
        CutTakesAll(|src[done..]|);
        var w := Write(src[done..]);
        match w {
          case Err(e) => return Err(e);
          case Ok(0) => return Err(WriteZero);
          case Ok(_) =>
        }
        if done > 0 { WriteMore(old(inner.Laid()), old(Pos()), src, done, w.value); }
        done := done + w.value;
      }
      assert src[..done] == src;
      return Ok(());
    }

    /** A write that leaves a front pending is taken whole. */
    lemma CutTakesAll(n: nat)
      requires Live()
      ensures Cuts(n) ==> n <= inner.c.P - Mod(Pos(), inner.c.P) && !Stuck()
      ensures Stuck() ==> Leftover()
    {
      hide Off, Div, Mod, Stores, Splice, Chunk;
      inner.CursorOffset();
    }

    lemma DirtyIsLoaded(n: nat)
      requires inner.buf.dirty && Valid()
      ensures !Cuts(n) && !Leftover() && !Stuck() && !Front()
    {
    }

    /** Stores the pending block if it is full. What follows it is then not loaded until the next seek. */
    method Flush() returns (r: Result<()>)
      requires Live()
      modifies inner`blockIndex, inner`lastNonce, inner`stored, inner.out, inner.out.node, inner.buf, inner.buf.data
      ensures r == Ok(()) && Live() && (old(Valid()) ==> Valid()) && Plain() == old(Plain()) && Pos() == old(Pos())
      ensures Unloaded() <==>
              old(Unloaded() || (inner.buf.dirty && inner.buf.posWrite == inner.c.P && Pos() < |Plain()|))
      ensures if old(inner.buf.dirty && inner.buf.posWrite == inner.c.P) then inner.buf.Empty() else Untouched()
    {
      hide Off, Div, Mod, Stores, Splice, Chunk;
      r := inner.Flush();
    }

    /** Stores the pending block and gives the output back, holding the whole plaintext. */
    method Finish() returns (r: Result<File>)
      requires inner.buf.Valid() && !inner.finished && (inner.buf.dirty ==> inner.Placed())
      modifies inner, if inner.buf.dirty then {inner.out, inner.out.node, inner.buf, inner.buf.data} else {}
      ensures r == Ok(inner.out)
      ensures (if old(inner.buf.dirty) then old(inner.Valid()) else old(inner.Sound())) ==>
                Stores(inner.c, inner.out.node.bytes, old(inner.Plain()))
      ensures old(inner.buf.dirty) ==>
                && old(Off(inner.blockIndex, inner.c.S())) <= |old(inner.out.node.bytes)|
                && inner.out.node.bytes ==
                   Splice(old(inner.out.node.bytes), old(Off(inner.blockIndex, inner.c.S())),
                          SealChunk(inner.c, old(inner.blockIndex), inner.lastNonce, old(inner.buf.Content())))
      ensures inner.finished && inner.stored == old(inner.Plain())
      ensures !old(inner.buf.dirty) ==> inner.out.node.bytes == old(inner.out.node.bytes)
    {
      r := inner.Finish();
    }
  }

  /** Filling zeros from the end of `a` to `t` extends `a` to `t`. */
  lemma ExtendsTo(a: seq<byte>, p: nat, t: int)
    requires p <= |a|
    ensures 0 <= t <= |a| ==> ZeroExtend(a, t) == a
    ensures p == |a| && p <= t ==> WriteAt(a, p, Zeros(t - p)) == ZeroExtend(a, t)
  {
    if p == |a| && p <= t { WriteZerosAtEnd(a, t - p); }
  }

  /** In a whole number of blocks every block there is is full. */
  lemma FullBlocks(a: seq<byte>, k: nat, size: nat)
    requires size > 0 && Off(k, size) <= |a|
    ensures Mod(|a|, size) == 0 && Chunk(a, k, size) != [] ==> |Chunk(a, k, size)| == size
  {
    hide Off, Div, Mod, Chunk;
    ChunkFull(a, k, size);
    DivMod(|a|, size);
    var q := Div(|a|, size);
    if q < k { OffMono(q, k, size); } else if k < q { OffMono(k, q, size); }
  }

  /** The block a seek to `p` ends up at: the one of `p`, or else the one at the end of the stream. */
  lemma TargetBlock(c: Codec, d: seq<byte>, a: seq<byte>, p: nat)
    requires Stores(c, d, a)
    ensures var nb, last := Div(p, c.P), Div(|d|, c.S());
            var target := Min(nb, last);
            && Off(target, c.P) <= |a| && Off(target, c.P) <= p
            && (target == nb ==> p == Off(nb, c.P) + Mod(p, c.P) && Mod(p, c.P) < c.P)
            && (target < nb ==> |a| < Off(target, c.P) + c.P <= p)
            && (Mod(|a|, c.P) == 0 && |a| <= p <==> |a| == Off(target, c.P))
  {
    hide Off, Div, Mod, Chunk;
    var P := c.P;
    var nb, last := Div(p, P), Div(|d|, c.S());
    StoredSize(c, d, a);
    StoredDiv(P, |a|);
    DivMod(|a|, P);
    DivMod(p, P);
    if nb < last { OffMono(nb, last, P); }
    if last < nb { OffMono(last, nb, P); }
    OffDiv(Min(nb, last), P);
  }

  lemma StoredSize(c: Codec, d: seq<byte>, a: seq<byte>)
    requires Stores(c, d, a)
    ensures |d| == StoredLen(c.P, |a|)
  {
  }

  lemma ChunkAhead(f: File, k: nat, size: nat)
    requires f.pos == Off(k, size) <= |f.node.bytes|
    ensures f.Ahead(size) == Chunk(f.node.bytes, k, size)
  {
  }
}
