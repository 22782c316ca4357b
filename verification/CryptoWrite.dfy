/** The sequential encrypting writer. */
module CryptoWrite {
  import opened Bytes
  import opened Layout
  import opened Buffers

  /** Size of the scratch buffer of the stream loops. */
  const BUF_SIZE: nat := 1024 * 1024

  lemma EmptyStored(c: Codec)
    ensures Stores(c, [], [])
  {
    OffStep(0, c.P);
    OffStep(0, c.S());
    StoredLenAt(c.P, 0, 0);
  }

  /** An arbitrary nonce: nothing below depends on which one is drawn. */
  method NextNonce() returns (nonce: Nonce)
    ensures |nonce| == NONCE_LEN
  {
    assert |Zeros(NONCE_LEN)| == NONCE_LEN;
    nonce :| |nonce| == NONCE_LEN;
  }

  /** A loaded block laid over its own place changes nothing. */
  lemma SpliceChunk(a: seq<byte>, k: nat, size: nat)
    requires Off(k, size) <= |a|
    ensures Splice(a, Off(k, size), Chunk(a, k, size)) == a
  {
    SpliceSame(a, Off(k, size), |Chunk(a, k, size)|);
  }

  /** A block is full unless it is the last one. */
  lemma ChunkFull(a: seq<byte>, k: nat, size: nat)
    requires Off(k, size) <= |a|
    ensures |Chunk(a, k, size)| == size || Off(k, size) + |Chunk(a, k, size)| == |a|
    ensures Off(k, size) + |Chunk(a, k, size)| <= |a|
  {
  }

  class RingCryptoWrite {
    const c: Codec
    const out: File
    const buf: BufMut
    var finished: bool
    var blockIndex: nat
    var lastNonce: Nonce
    /** The plaintext that the stored stream holds, without the block pending in `buf`. */
    ghost var stored: seq<byte>

    /** What holds even while a block is being moved. */
    ghost predicate Sound()
      reads this, out, out.node, buf
    {
      buf.Valid() && buf.data.Length == c.P && Stores(c, out.node.bytes, stored)
    }

    /** The output cursor is at the place of the pending block, and the blocks before it are full. */
    ghost predicate Placed()
      reads this, out, out.node, buf
    {
      Sound() && Off(blockIndex, c.P) <= |stored| && out.pos == Off(blockIndex, c.S())
    }

    /**
     * Between calls: the output cursor is at the pending block, all stored blocks before it are full,
     * a clean nonempty buffer is its stored block, and a dirty one covers the block it will overwrite.
     */
    ghost predicate Valid()
      reads this, out, out.node, buf, buf.data
    {
      && Placed()
      && if buf.dirty then
           buf.available > 0 && (buf.available == c.P || |stored| <= Off(blockIndex, c.P) + buf.available)
         else
           buf.posWrite < c.P && (buf.available > 0 ==> buf.Content() == Chunk(stored, blockIndex, c.P))
    }

    /** The plaintext including the pending block. */
    ghost function Plain(): seq<byte>
      reads this, buf, buf.data
    {
      if buf.dirty then Laid() else stored
    }

    /** What is stored, with the buffer laid over its place, dirty or not. */
    ghost function Laid(): seq<byte>
      reads this, buf, buf.data
    {
      if buf.Valid() && Off(blockIndex, c.P) <= |stored| then Splice(stored, Off(blockIndex, c.P), buf.Content()) else stored
    }

    function Pos(): nat
      reads this, buf
    {
      Off(blockIndex, c.P) + buf.posWrite
    }

    /** Nothing is stored past the pending block. */
    ghost predicate AtEnd()
      reads this, buf
    {
      |stored| <= Off(blockIndex, c.P) + buf.available
    }

    /**
     * A write of `n` bytes would leave in the buffer only the front of a stored block: it goes into a
     * buffer that holds no more than a front, and neither fills it nor reaches the end.
     */
    ghost predicate Cuts(n: nat)
      reads this, buf, buf.data
    {
      if buf.dirty && buf.posWrite == c.P then 0 < n < c.P && Pos() + n < |Plain()| else n > 0 && FrontTo(buf.posWrite + n)
    }

    /** Bytes up to `end` in the buffer are only the front of the stored block. */
    ghost predicate FrontTo(end: nat)
      reads this, buf
    {
      var e := Max(buf.available, end); e < c.P && Off(blockIndex, c.P) + e < |stored|
    }

    /**
     * A clean full block was left in the buffer under the index behind the last stored block: the next
     * write will lay its bytes over that block, as if it had been appended to the plaintext.
     */
    ghost predicate Leftover()
      reads this, out, out.node, buf
    {
      Placed() && !buf.dirty && buf.available == c.P && Off(blockIndex, c.P) == |stored| && blockIndex > 0
    }

    /** Only the front of a stored block that was never loaded is pending over it. */
    ghost predicate Front()
      reads this, out, out.node, buf
    {
      Placed() && buf.dirty && buf.available > 0 && FrontTo(0)
    }

    /** The cursor is behind the last byte of the buffer. */
    ghost predicate AtTip()
      reads this, buf
    {
      buf.posWrite == buf.available
    }

    /** What holds between calls, with a block left over or a front pending as well. */
    ghost predicate Live()
      reads this, out, out.node, buf, buf.data
    {
      Valid() || Leftover() || Front()
    }

    /** A clean buffer with its cursor at the very end takes no more bytes. */
    ghost predicate Stuck()
      reads this, out, out.node, buf
    {
      Sound() && !buf.dirty && buf.posWrite == c.P
    }

    constructor (c: Codec, out: File, ghost stored: seq<byte>)
      requires Stores(c, out.node.bytes, stored) && out.pos == 0
      ensures this.c == c && this.out == out && this.stored == stored
      ensures fresh(buf) && fresh(buf.data)
      ensures Valid() && !finished && buf.Empty() && Pos() == 0 && Plain() == stored
    {
      this.c, this.out, this.stored := c, out, stored;
      buf := new BufMut(c.P);
      finished, blockIndex, lastNonce := false, 0, Zeros(NONCE_LEN);
      new;
      OffStep(0, c.P);
      OffStep(0, c.S());
    }

    lemma PosInPlain()
      requires Valid()
      ensures Pos() <= |Plain()|
    {
      hide Off, Chunk;
      ChunkFull(stored, blockIndex, c.P);
    }

    /** Seals the pending block and writes it over its place in the stream. */
    method EncryptAndWrite()
      requires Placed() && buf.dirty
      modifies this`blockIndex, this`lastNonce, this`stored, out, out.node, buf, buf.data
      ensures buf.Empty() && blockIndex == old(blockIndex) + 1
      ensures old(Off(blockIndex, c.S())) <= |old(out.node.bytes)|
      ensures out.node.bytes ==
              Splice(old(out.node.bytes), old(Off(blockIndex, c.S())),
                     lastNonce + c.aead.seal(lastNonce, old(blockIndex), old(buf.Content())))
      ensures stored == old(Plain())
      ensures old(Valid()) ==> Sound()
      ensures old(Valid()) && old(buf.available) == c.P ==>
                Valid() && Pos() == old(Off(blockIndex, c.P)) + c.P
    {
      hide Off, Div, Mod, Chunk, Splice, Stores;
      ghost var d, k, x := out.node.bytes, blockIndex, buf.Content();
      BlockShape(c, d, stored, k);
      SealPending();
      blockIndex := blockIndex + 1;
      if old(Valid()) { SpliceBlock(c, d, stored, k, lastNonce, x); }
      stored := Splice(stored, Off(k, c.P), x);
      OffStep(k, c.P);
      OffStep(k, c.S());
    }

    /** Seals the buffer in place under a new nonce, and writes nonce, ciphertext and tag at the cursor. */
    method SealPending()
      requires buf.Valid() && out.pos <= |out.node.bytes|
      modifies this`lastNonce, out, out.node, buf, buf.data
      ensures buf.Valid() && buf.Empty()
      ensures out.pos == old(out.pos) + old(buf.available) + OVERHEAD
      ensures out.node.bytes == Splice(old(out.node.bytes), old(out.pos),
                                       lastNonce + c.aead.seal(lastNonce, blockIndex, old(buf.Content())))
    {
      hide WriteAt, Splice;
      ghost var d, off, x := out.node.bytes, out.pos, buf.Content();
      lastNonce := NextNonce();
      var len := buf.available;
      var sealed := c.aead.seal(lastNonce, blockIndex, buf.data[..len]);
      forall i | 0 <= i < len { buf.data[i] := sealed[i]; }
      assert buf.data[..len] == sealed[..len];
      out.WriteAll(lastNonce);
      out.WriteAll(buf.data[..len]);
      buf.Clear();
      out.WriteAll(sealed[len..]);

      WriteAtTwice(d, off, lastNonce, sealed[..len]);
      WriteAtTwice(d, off, lastNonce + sealed[..len], sealed[len..]);
      assert lastNonce + sealed[..len] + sealed[len..] == lastNonce + c.aead.seal(lastNonce, blockIndex, x);
      WriteAtInside(d, off, lastNonce + c.aead.seal(lastNonce, blockIndex, x));
    }

    /** Flushing only stores a full block; a partial one stays pending. */
    method Flush() returns (r: Result<()>)
      requires Live()
      modifies this`blockIndex, this`lastNonce, this`stored, out, out.node, buf, buf.data
      ensures r == if finished then Err(AlreadyFinished) else Ok(())
      ensures Live() && (old(Valid()) ==> Valid())
      ensures Plain() == old(Plain()) && Pos() == old(Pos())
      ensures old(AtEnd()) ==> AtEnd()
      ensures if !finished && old(buf.dirty && buf.posWrite == c.P) then Valid() && buf.Empty() && blockIndex > 0
              else unchanged(this, out, out.node, buf, buf.data)
    {
      if finished { return Err(AlreadyFinished); }
      if !buf.dirty { return Ok(()); }
      if buf.Remaining() == 0 {
        EncryptAndWrite();
      }
      return Ok(());
    }

    /** The part of a write that happens in the buffer, once the buffer has room. */
    method WriteInBlock(src: seq<byte>) returns (n: nat)
      requires Stuck() || (Live() && buf.posWrite < c.P)
      modifies buf, buf.data
      ensures n == Min(|src|, c.P - old(buf.posWrite))
      ensures n == 0 ==> unchanged(buf, buf.data)
      ensures buf.Valid() && buf.posWrite == old(buf.posWrite) + n
      ensures buf.available == Max(old(buf.available), buf.posWrite)
      ensures buf.dirty == (old(buf.dirty) || n > 0)
      ensures old(Placed()) ==> Placed()
      ensures !old(Stuck()) && n > 0 ==>
                && Plain() == WriteAt(old(Laid()), old(Pos()), src[..n])
                && (Front() <==> old(FrontTo(buf.posWrite + n))) && (Valid() <==> !Front())
    {
      hide Off, WriteAt, Splice, Stores, Chunk;
      ghost var b, pw := buf.Content(), buf.posWrite;
      n := buf.Write(src);
      if !old(Stuck()) { WriteThrough(stored, Off(blockIndex, c.P), b, pw, src[..n]); }
    }

    /** The plaintext is what is stored, with the buffer laid over it, dirty or not. */
    lemma PlainIsSplice()
      requires Valid()
      ensures buf.Valid() && buf.data.Length == c.P
      ensures Plain() == Laid()
      ensures buf.available == 0 || buf.available == c.P || |stored| <= Off(blockIndex, c.P) + buf.available
      ensures !buf.dirty ==> Off(blockIndex, c.P) + buf.available <= |stored|
    {
      hide Off, Splice, Stores, Chunk;
      SpliceSame(stored, Off(blockIndex, c.P), 0);
      SpliceChunk(stored, blockIndex, c.P);
      ChunkFull(stored, blockIndex, c.P);
      if buf.available == 0 { assert buf.Content() == []; }
    }

    /** The cursor's offset in its block. */
    lemma CursorOffset()
      requires Live()
      ensures buf.posWrite <= c.P
      ensures Mod(Pos(), c.P) == if buf.posWrite < c.P then buf.posWrite else 0
      ensures buf.posWrite == c.P ==> if buf.dirty then Valid() && buf.available == c.P else Stuck()
      ensures Stuck() ==> Leftover()
      ensures !Leftover() ==> Plain() == Laid()
    {
      hide Off, Div, Mod, Splice, Stores, Chunk;
      OffStep(blockIndex, c.P);
      OffDiv(blockIndex + 1, c.P);
      if buf.posWrite < c.P { DivIs(Pos(), c.P, blockIndex); }
      if Valid() { PlainIsSplice(); }
    }

    /**
     * Takes bytes up to the end of the current block: always the positioned write, although what it leaves
     * pending may be only the front of a stored block. With a block left over its bytes become part of the
     * plaintext.
     */
    method Write(src: seq<byte>) returns (r: Result<nat>)
      requires Live() || Stuck()
      modifies this`blockIndex, this`lastNonce, this`stored, out, out.node, buf, buf.data
      ensures finished ==> r == Err(AlreadyFinished) && unchanged(this, out, out.node, buf, buf.data)
      ensures !old(buf.dirty) ==> unchanged(this, out, out.node)
      ensures src == [] && !old(buf.dirty && buf.posWrite == c.P) ==> unchanged(this, out, out.node, buf, buf.data)
      ensures !finished && old(Stuck()) ==> r == Ok(0) && unchanged(this, out, out.node, buf, buf.data)
      ensures !finished && !old(Stuck()) ==>
                && r == Ok(Min(|src|, c.P - Mod(old(Pos()), c.P)))
                && Pos() == old(Pos()) + r.value && Live() && (old(AtEnd()) ==> AtEnd()) && (old(AtTip()) ==> AtTip())
                && if src == [] then Plain() == old(Plain()) && (old(Valid()) ==> Valid()) else
                     && r.value > 0 && buf.dirty && buf.posWrite > 0
                     && Plain() == WriteAt(old(Laid()), old(Pos()), src[..r.value])
                     && (Front() <==> old(Cuts(|src|))) && (Valid() <==> !Front())
                     && (!old(buf.dirty && buf.posWrite == c.P) ==>
                           buf.available == Max(old(buf.available), buf.posWrite) && unchanged(this, out, out.node))
    {
      hide Off, Div, Mod, WriteAt, Splice, Stores, Chunk, Laid;
      if finished { return Err(AlreadyFinished); }
      if !old(Stuck()) { CursorOffset(); }
      if buf.dirty && buf.Remaining() == 0 {
        var _ := Flush();
        PlainIsSplice();
      }
      if !old(Stuck()) { CursorOffset(); }
      var n := WriteInBlock(src);
      return Ok(n);
    }

    /** A `write_all` of `n` bytes would leave only the front of a stored block in the buffer. */
    ghost predicate Overruns(n: nat)
      reads this, buf, buf.data
    {
      && n > 0
      && if buf.posWrite + n <= c.P then FrontTo(buf.posWrite + n)
         else Pos() + n < |Plain()| && Mod(Pos() + n, c.P) != 0
    }

    /** The first piece of a write is all of it, and cuts where the whole overruns, or it fills the block. */
    lemma OverrunsPiece(n: nat)
      requires Live() && !Stuck() && n > 0
      ensures n <= c.P - Mod(Pos(), c.P) ==> (Cuts(n) <==> Overruns(n))
      ensures n > c.P - Mod(Pos(), c.P) ==>
                && !Cuts(n)
                && (Overruns(n) <==> Pos() + n < |Plain()| && Mod(Pos() + n, c.P) != 0)
    {
      hide Off, Div, Mod, Splice, Stores, Chunk;
      CursorOffset();
      if buf.posWrite == c.P {
        OffStep(blockIndex, c.P);
        if n < c.P { DivIs(Pos() + n, c.P, blockIndex + 1); }
        if n == c.P { OffStep(blockIndex + 1, c.P); OffDiv(blockIndex + 2, c.P); }
      }
    }

    /** A cursor behind something on a block boundary is at the end of a full block. */
    lemma FullBehind(p: nat)
      requires Valid() && buf.posWrite > 0 && Pos() == p + (c.P - Mod(p, c.P))
      ensures buf.posWrite == c.P && Mod(Pos(), c.P) == 0
    {
      hide Off, Div, Mod, Splice, Stores, Chunk;
      DivMod(p, c.P);
      OffStep(Div(p, c.P), c.P);
      OffDiv(Div(p, c.P) + 1, c.P);
      CursorOffset();
    }

    /** One turn of the loop below: it overruns exactly when it was all of the rest and the whole did. */
    method WritePiece(src: seq<byte>) returns (r: Result<nat>)
      requires !finished && src != [] && (Stuck() || Live())
      modifies this`blockIndex, this`lastNonce, this`stored, out, out.node, buf, buf.data
      ensures old(Stuck()) ==> r == Ok(0) && unchanged(this, out, out.node, buf, buf.data)
      ensures r.Ok? && r.value <= |src|
      ensures !old(Stuck()) ==>
                && 0 < r.value && !finished && buf.dirty && buf.posWrite > 0 && !Stuck() && Live()
                && Plain() == Laid() == WriteAt(old(Laid()), old(Pos()), src[..r.value])
                && Pos() == old(Pos()) + r.value && (old(AtEnd()) ==> AtEnd()) && (old(AtTip()) ==> AtTip())
                && (Valid() <==> !Front())
                && (Front() <==> r.value == |src| && old(Overruns(|src|)))
                && (r.value < |src| ==> (Overruns(|src| - r.value) <==> old(Overruns(|src|))))
    {
      hide Off, Div, Mod, WriteAt, Splice, Stores, Chunk;
      ghost var stuck, p, len, base := Stuck(), Pos(), |Plain()|, |Laid()|;
      if !stuck { OverrunsPiece(|src|); CursorOffset(); LaidLen(); }
      r := Write(src);
      if !stuck {
        CursorOffset();
        if r.value < |src| { FullBehind(p); }
      }
    }

    /** How long the laid-over plaintext is. */
    lemma LaidLen()
      requires Live()
      ensures |Laid()| == Max(|stored|, Off(blockIndex, c.P) + buf.available) && Pos() <= |Laid()|
      ensures |Plain()| == (if Leftover() then |stored| else |Laid()|)
    {
      hide Off, Stores, Chunk;
      if Valid() { PlainIsSplice(); }
    }

    /** The standard library's loop: write until nothing is left or no progress is made. */
    method WriteAll(src: seq<byte>) returns (r: Result<()>)
      requires !finished && (Stuck() || Live())
      modifies this`blockIndex, this`lastNonce, this`stored, out, out.node, buf, buf.data
      ensures old(Stuck()) && src != [] ==> r == Err(WriteZero) && unchanged(this, out, out.node, buf, buf.data)
      ensures src == [] ==> r == Ok(()) && unchanged(this, out, out.node, buf, buf.data)
      ensures !old(Stuck()) && src != [] ==>
                && r == Ok(()) && !finished && Live() && buf.dirty && buf.posWrite > 0 && !Stuck()
                && Plain() == Laid() == WriteAt(old(Laid()), old(Pos()), src)
                && Pos() == old(Pos()) + |src| && (old(AtEnd()) ==> AtEnd()) && (old(AtTip()) ==> AtTip())
                && (Front() <==> old(Overruns(|src|))) && (Valid() <==> !Front())
    {
      hide Off, Div, Mod, WriteAt, Splice, Stores, Chunk;
      hide Valid, Front, Live, Plain, Laid, Pos, AtEnd, AtTip, Overruns, Stuck, Leftover;
      if src == [] { return Ok(()); }
      var done := 0;
      ghost var stuck, bad := Stuck(), Overruns(|src|);
      while done < |src|
        invariant done <= |src|
        invariant done == 0 ==> unchanged(this, out, out.node, buf, buf.data)
        invariant stuck ==> done == 0
        invariant done > 0 ==>
                    && !finished && Live() && buf.dirty && buf.posWrite > 0 && !Stuck()
                    && Plain() == Laid() == WriteAt(old(Laid()), old(Pos()), src[..done])
                    && Pos() == old(Pos()) + done && (old(AtEnd()) ==> AtEnd()) && (old(AtTip()) ==> AtTip())
                    && (Front() <==> bad && done == |src|) && (Valid() <==> !Front())
        invariant 0 < done < |src| ==> (bad <==> Overruns(|src| - done))
      {
        if done == 0 { assert src[done..] == src; }
        var w := WritePiece(src[done..]);
        match w {
          case Err(e) => return Err(e);
          case Ok(0) => return Err(WriteZero);
          case Ok(_) =>
        }
        if done > 0 { WriteMore(old(Laid()), old(Pos()), src, done, w.value); }
        done := done + w.value;
      }
      assert src[..done] == src;
      return Ok(());
    }

    /** Behind the last byte of the buffer, only the front of a block is pending exactly inside the plaintext. */
    lemma TipFront()
      requires Live() && buf.dirty && AtTip()
      ensures Front() <==> Mod(Pos(), c.P) != 0 && Pos() < |Plain()|
    {
      hide Off, Div, Mod, Stores, Chunk;
      CursorOffset();
      LaidLen();
    }

    /** Nothing is overrun at the end of the stream. */
    lemma EndNotOverrun(n: nat)
      requires Live() && AtEnd()
      ensures !Front() && !Overruns(n) && (Valid() ==> !Stuck() && Plain() == Laid())
    {
      hide Off, Div, Mod, Stores, Chunk;
      if Valid() { PlainIsSplice(); }
      LaidLen();
    }

    /** Stores what is pending and gives the output back. */
    method Finish() returns (r: Result<File>)
      requires buf.Valid() && (buf.dirty ==> Placed())
      modifies this, if buf.dirty then {out, out.node, buf, buf.data} else {}
      ensures finished
      ensures old(finished) ==> r == Err(AlreadyFinished) && unchanged(this, out, out.node, buf, buf.data)
      ensures !old(finished) ==> r == Ok(out) && stored == old(Plain())
      ensures !old(finished) && (if old(buf.dirty) then old(Valid()) else old(Sound())) ==>
                Stores(c, out.node.bytes, old(Plain()))
      ensures !old(finished) && old(buf.dirty) ==>
                && old(Off(blockIndex, c.S())) <= |old(out.node.bytes)|
                && out.node.bytes == Splice(old(out.node.bytes), old(Off(blockIndex, c.S())),
                                            SealChunk(c, old(blockIndex), lastNonce, old(buf.Content())))
      ensures !old(buf.dirty) ==> out.node.bytes == old(out.node.bytes)
    {
      if finished { return Err(AlreadyFinished); }
      if buf.dirty {
        EncryptAndWrite();
      }
      finished := true;
      return Ok(out);
    }
  }

  /** What the stream loops write to: a plain file, or the encrypting writer at the end of its stream. */
  datatype Sink = ToFile(file: File) | ToCrypto(writer: RingCryptoWrite) {
    ghost function Parts(): set<object> {
      match this
      case ToFile(f) => {f, f.node}
      case ToCrypto(w) => {w, w.out, w.out.node, w.buf, w.buf.data}
    }

    ghost predicate Ready()
      reads Parts()
    {
      match this
      case ToFile(_) => true
      case ToCrypto(w) => !w.finished && (w.Stuck() || w.Live())
    }

    /** It takes no more bytes. */
    ghost predicate Blocked()
      reads Parts()
    {
      match this
      case ToFile(_) => false
      case ToCrypto(w) => w.Stuck()
    }

    /** The bytes that the next write is laid over. */
    ghost function Content(): seq<byte>
      reads Parts()
    {
      match this
      case ToFile(f) => f.node.bytes
      case ToCrypto(w) => w.Laid()
    }

    ghost function Pos(): nat
      reads Parts()
    {
      match this
      case ToFile(f) => f.pos
      case ToCrypto(w) => w.Pos()
    }

    /** After a write the encrypting writer has it in its pending block, or before that. */
    ghost predicate Written()
      reads Parts()
    {
      match this
      case ToFile(_) => true
      case ToCrypto(w) => w.Live() && w.buf.dirty && w.buf.posWrite > 0 && w.Plain() == w.Laid()
    }

    /** Nothing is behind the cursor's block. */
    ghost predicate Last()
      reads Parts()
    {
      match this
      case ToFile(_) => true
      case ToCrypto(w) => w.AtEnd()
    }

    /** Nothing of the cursor's block is behind the cursor. */
    ghost predicate AtTip()
      reads Parts()
    {
      match this
      case ToFile(_) => true
      case ToCrypto(w) => w.AtTip()
    }

    method WriteAll(src: seq<byte>) returns (r: Result<()>)
      requires Ready()
      modifies Parts()
      ensures src == [] ==> r == Ok(()) && Same()
      ensures src != [] && old(Blocked()) ==> r == Err(WriteZero) && Same()
      ensures src != [] && !old(Blocked()) ==>
                && r == Ok(()) && Ready() && !Blocked() && Written()
                && Content() == WriteAt(old(Content()), old(Pos()), src)
                && Pos() == old(Pos()) + |src| && (old(Last()) ==> Last()) && (old(AtTip()) ==> AtTip())
    {
      hide Off, Div, Mod, WriteAt, Splice, Stores, Chunk, RingCryptoWrite.Laid, RingCryptoWrite.Sound;
      match this {
        case ToFile(f) =>
          if src != [] { f.WriteAll(src); }
          return Ok(());
        case ToCrypto(w) =>
          r := w.WriteAll(src);
      }
    }

    twostate predicate Same()
      reads Parts()
    {
      unchanged(Parts())
    }

    twostate lemma Kept()
      requires Same()
      ensures Ready() == old(Ready()) && Blocked() == old(Blocked())
      ensures Content() == old(Content()) && Pos() == old(Pos()) && Last() == old(Last())
      ensures AtTip() == old(AtTip())
    {
    }
  }

  /** Writes `len` zeros. */
  method FillZeros(w: Sink, len: nat) returns (r: Result<()>)
    requires w.Ready()
    modifies w.Parts()
    ensures len == 0 ==> r == Ok(()) && w.Same()
    ensures len > 0 && old(w.Blocked()) ==> r == Err(WriteZero) && w.Same()
    ensures len > 0 && !old(w.Blocked()) ==>
              && r == Ok(()) && w.Ready() && !w.Blocked() && w.Written()
              && w.Content() == WriteAt(old(w.Content()), old(w.Pos()), Zeros(len))
              && w.Pos() == old(w.Pos()) + len && (old(w.Last()) ==> w.Last()) && (old(w.AtTip()) ==> w.AtTip())
  {
    hide WriteAt, Sink.Ready, Sink.Blocked, Sink.Written, Sink.Content, Sink.Pos, Sink.Last, Sink.AtTip;
    if len == 0 { return Ok(()); }
    var buffer := Zeros(BUF_SIZE);
    var written := 0;
    while true
      invariant written < len
      invariant written == 0 ==> w.Same()
      invariant old(w.Blocked()) ==> written == 0
      invariant written > 0 ==>
                  && w.Ready() && !w.Blocked()
                  && w.Content() == WriteAt(old(w.Content()), old(w.Pos()), Zeros(written))
                  && w.Pos() == old(w.Pos()) + written && (old(w.Last()) ==> w.Last()) && (old(w.AtTip()) ==> w.AtTip())
      decreases len - written
    {
      var n := Min(|buffer|, len - written);
      var a := w.WriteAll(buffer[..n]);
      if a.Err? { return a; }
      assert Zeros(written) + buffer[..n] == Zeros(written + n);
      if written == 0 { assert buffer[..n] == Zeros(n); }
      WriteAtTwice(old(w.Content()), old(w.Pos()), Zeros(written), buffer[..n]);
      written := written + n;
      if written == len { break; }
    }
    return Ok(());
  }
}
