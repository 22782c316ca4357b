/** The streams open on one file: its readers, its one writer, and the size that is recorded for it. */
module OpenFile {
  import opened Bytes
  import opened Layout
  import opened Buffers
  import opened Directories
  import opened CryptoWrite
  import opened CryptoWriteSeek
  import opened CryptoRead
  import opened StreamUtil
  import opened ReaderRuns
  import opened ShortBlocks
  import opened WriterMachine

  ghost predicate Apart(r: RingCryptoRead, s: RingCryptoRead) {
    r != s && r.input != s.input && r.buf != s.buf && r.buf.data != s.buf.data
  }

  ghost predicate ApartFrom(r: RingCryptoRead, w: RingCryptoWriteSeek) {
    && r.input != w.inner.out
    && r.buf != w.inner.buf && r.buf != w.decryptBuf
    && r.buf.data != w.inner.buf.data && r.buf.data != w.decryptBuf.data
  }

  /** A reader that sees what is stored now. */
  ghost predicate Synced(r: RingCryptoRead, node: Inode, disk: seq<byte>)
    reads r, r.input, r.input.node`bytes, r.buf, r.buf.data
  {
    r.Valid() && r.input.node == node && r.plain == disk
  }

  /** A synced reader that nothing was read from. */
  ghost predicate AtStart(r: RingCryptoRead, node: Inode, disk: seq<byte>)
    reads r, r.input, r.input.node`bytes, r.buf, r.buf.data
  {
    Synced(r, node, disk) && r.Next() == 0 && !r.Drained()
  }

  /** An up-to-date reader that was read past the end. */
  ghost predicate PastEnd(r: RingCryptoRead, node: Inode, disk: seq<byte>)
    reads r, r.input, r.input.node`bytes, r.buf, r.buf.data
  {
    Synced(r, node, disk) && r.Drained()
  }

  /**
   * A reader that is not up to date, as a handle's own is after its writer stored something, is sought to
   * another block than the one it has cached.
   */
  ghost predicate Elsewhere(r: RingCryptoRead, node: Inode, disk: seq<byte>, offset: nat)
    reads r, r.input, r.buf
  {
    && Place(r).0 == node && Place(r).2
    && Div(Max(Min(offset, Reach(r.c.P, |disk|)), 0), r.c.P) != Div(Place(r).1, r.c.P)
  }

  /** What decides where a reader goes next. */
  ghost function Place(r: RingCryptoRead): (Inode, nat, bool)
    reads r, r.input, r.buf
  {
    (r.input.node, r.Pos(), r.buf.Valid() && r.buf.data.Length == r.c.S())
  }

  lemma AtStartFacts(r: RingCryptoRead, node: Inode, disk: seq<byte>)
    requires AtStart(r, node, disk)
    ensures Synced(r, node, disk) && !r.Drained() && r.plain == disk
  {
  }

  function ReaderParts(r: RingCryptoRead): set<object> {
    {r, r.input, r.buf, r.buf.data}
  }

  function WriterParts(w: RingCryptoWriteSeek): set<object> {
    {w, w.inner, w.inner.out, w.inner.buf, w.inner.buf.data, w.decryptBuf, w.decryptBuf.data}
  }

  datatype Cipher = ChaCha20Poly1305 | Aes256Gcm {
    /** The most plaintext that is encrypted under one key. */
    function MaxPlaintextLen(): (n: nat)
      ensures n == if ChaCha20Poly1305? then 274_877_906_880 else 68_719_476_704
    {
      match this
      case ChaCha20Poly1305 => 0xFFFF_FFFF * 64
      case Aes256Gcm => (0x80_0000_0000 - 256) / 8
    }
  }

  /** The bytes of `data` that keep the file within the cipher's bound. */
  function Bounded(maxLen: nat, offset: nat, data: seq<byte>): (r: seq<byte>)
    ensures r <= data && (offset <= maxLen ==> |r| == Min(|data|, maxLen - offset))
  {
    if offset <= maxLen < offset + |data| then data[..maxLen - offset] else data
  }

  datatype WriteCtx = WriteCtx(handle: nat, size: nat, writer: RingCryptoWriteSeek)

  class FileStreams {
    const c: Codec
    const maxLen: nat
    var node: Inode
    /** The size in the inode's attributes. */
    var size: nat
    var readers: map<nat, RingCryptoRead>
    var writing: Option<WriteCtx>
    /** The plaintext that is stored. */
    ghost var disk: seq<byte>

    ghost predicate Separate()
      reads this`readers, this`writing
    {
      && (forall g, h :: g in readers && h in readers && g != h ==> Apart(readers[g], readers[h]))
      && (writing.Some? ==> writing.value.writer.Separate())
      && (writing.Some? ==> forall h :: h in readers ==> ApartFrom(readers[h], writing.value.writer))
      && (forall h :: h in readers ==> readers[h].c == c)
    }

    ghost predicate Valid()
      reads *
    {
      && WriterValid()
      && (forall h :: h in readers && h !in WriterHandle() ==> Synced(readers[h], node, disk))
    }

    /** A reader that was up to date still is, and is where it was. */
    twostate predicate Keeps(r: RingCryptoRead)
      reads this, r, r.input, r.input.node`bytes, r.buf, r.buf.data
    {
      old(Synced(r, node, disk)) ==> Synced(r, node, disk) && r.Drained() == old(r.Drained())
    }

    /** The reader under the handle is the same, and where it was. */
    twostate predicate OwnUntouched(h: nat)
      reads this`readers, if h in readers then ReaderParts(readers[h]) else {}
    {
      h in readers ==> h in old(readers) && readers[h] == old(readers[h]) && Place(readers[h]) == old(Place(readers[h]))
    }

    /** The handle of the writer; a reader under the same handle is not kept up to date. */
    function WriterHandle(): set<nat>
      reads this
    {
      if writing.Some? then {writing.value.handle} else {}
    }

    /** The file's content, with the writer's pending block. */
    ghost function Plain(): seq<byte>
      reads *
    {
      if writing.Some? then writing.value.writer.Plain() else disk
    }

    /** The size that callers see: the stored one, or the writer's if that is larger. */
    function GetSize(): nat
      reads this
    {
      if writing.Some? then Max(size, writing.value.size) else size
    }

    ghost predicate Sized()
      reads *
    {
      GetSize() == |Plain()|
    }

    constructor (c: Codec, cipher: Cipher)
      ensures this.c == c && maxLen == cipher.MaxPlaintextLen()
      ensures Valid() && Sized() && fresh(node) && readers == map[] && writing == None && Plain() == []
    {
      this.c, maxLen, size, readers, writing, disk := c, cipher.MaxPlaintextLen(), 0, map[], None, [];
      node := new Inode([]);
      new;
      EmptyStored(c);
    }

    /** A new reader on the stored content. */
    method NewReader() returns (r: RingCryptoRead)
      requires Stores(c, node.bytes, disk)
      ensures fresh(ReaderParts(r)) && r.c == c && AtStart(r, node, disk)
    {
      var f := new File(node);
      r := new RingCryptoRead(c, f, disk);
    }

    /** Saves the times of one reader, which also saves the writer's size, and rebuilds it. */
    method Rebuild(h: nat)
      requires Separate() && Stores(c, node.bytes, disk) && h in readers
      modifies this`readers, this`size
      ensures Separate() && h in readers && readers == old(readers)[h := readers[h]]
      ensures size == old(GetSize())
      ensures fresh(ReaderParts(readers[h])) && AtStart(readers[h], node, disk)
    {
      hide Stores, AtStart, Separate;
      size := GetSize();
      AddReader(h);
    }

    /** Rebuilds every reader but the skipped ones. */
    method ResetReaders(skip: set<nat>)
      requires Separate() && (readers.Keys <= skip || Stores(c, node.bytes, disk))
      modifies this`readers, this`size
      ensures Separate() && readers.Keys == old(readers.Keys)
      ensures size == if old(readers.Keys) <= skip then old(size) else old(GetSize())
      ensures forall h :: h in readers ==>
                if h in skip then readers[h] == old(readers[h])
                else fresh(ReaderParts(readers[h])) && AtStart(readers[h], node, disk)
    {
      hide Stores, AtStart, Separate, ReaderParts;
      var rest := readers.Keys - skip;
      ghost var all := rest;
      while rest != {}
        invariant rest <= all && Separate() && readers.Keys == old(readers.Keys)
        invariant size == if rest == all then old(size) else old(GetSize())
        invariant forall h :: h in readers ==>
                    if h in rest || h !in all then readers[h] == old(readers[h])
                    else fresh(ReaderParts(readers[h])) && AtStart(readers[h], node, disk)
        decreases rest
      {
        var h :| h in rest;
        Rebuild(h);
        rest := rest - {h};
      }
    }

    /** Rebuilds every reader but the writer's own. */
    method ResetOthers(h: nat)
      requires Separate() && (readers.Keys <= {h} || Stores(c, node.bytes, disk)) && (h in readers ==> h in WriterHandle())
      modifies this`readers, this`size
      ensures Separate()
      ensures Valid() <==> old(WriterValid())
      ensures readers.Keys == old(readers.Keys) && Plain() == old(Plain()) && GetSize() == old(GetSize())
      ensures forall g :: g in readers && g != h ==> fresh(ReaderParts(readers[g])) && AtStart(readers[g], node, disk)
      ensures h in readers ==> readers[h] == old(readers[h]) && Keeps(readers[h])
      ensures OwnUntouched(h)
    {
      hide Stores, Off, Chunk, Splice, AtStart, Synced, Separate;
      ResetReaders({h});
      forall g | g in readers && g !in WriterHandle() ensures Synced(readers[g], node, disk) {
        AtStartFacts(readers[g], node, disk);
      }
    }

    method AddReader(h: nat)
      requires Separate() && Stores(c, node.bytes, disk)
      modifies this`readers
      ensures Separate() && h in readers && readers == old(readers)[h := readers[h]]
      ensures fresh(ReaderParts(readers[h])) && AtStart(readers[h], node, disk)
    {
      hide Stores, AtStart;
      var r := NewReader();
      readers := readers[h := r];
    }

    method OpenRead(h: nat)
      requires Valid() && h !in readers
      modifies this`readers
      ensures Valid() && h in readers && readers == old(readers)[h := readers[h]]
      ensures AtStart(readers[h], node, disk)
      ensures Plain() == old(Plain()) && (old(Sized()) ==> Sized())
    {
      hide Stores, Off, Chunk, Splice, Synced, AtStart, ReaderParts;
      AddReader(h);
      AtStartFacts(readers[h], node, disk);
    }

    /** A second writer is refused. */
    method OpenWrite(h: nat) returns (r: FsResult<()>)
      requires Valid()
      modifies this`writing
      ensures r == if old(writing).Some? then Failure(AlreadyOpenForWrite) else Success(())
      ensures Valid() && Plain() == old(Plain()) && (old(Sized()) ==> Sized())
      ensures r.Failure? ==> writing == old(writing)
      ensures r.Success? ==> writing.Some? && writing.value.handle == h && writing.value.size == size
      ensures r.Success? ==> NewlyWriting()
    {
      hide Stores, Off, Chunk, Synced;
      if writing.Some? { return Failure(AlreadyOpenForWrite); }
      var w := NewWriter();
      writing := Some(WriteCtx(h, GetSize(), w));
      return Success(());
    }

    method NewWriter() returns (w: RingCryptoWriteSeek)
      requires Stores(c, node.bytes, disk)
      ensures fresh(WriterParts(w))
      ensures w.inner.c == c && w.inner.out.node == node && w.inner.stored == disk
      ensures w.Valid() && w.inner.buf.Empty() && StateOf(w) == State(disk, 0, Nothing)
    {
      var f := new File(node);
      w := new RingCryptoWriteSeek(c, f, disk);
      Starts(w, disk);
    }

    /** The writer, if there is one, is a new one. */
    ghost predicate NewlyWriting()
      reads *
    {
      writing.Some? ==> Writer() == State(disk, 0, Nothing)
    }

    /**
     * Reads up to `len` bytes at `offset`. Nothing is given past the reported end, nor within the last
     * block once a read through this handle met the end, which every read that gives less than asked does.
     * A reader that is not up to date is after a read elsewhere.
     */
    method Read(h: nat, offset: nat, len: nat) returns (r: FsResult<seq<byte>>)
      requires Valid()
      requires h in readers ==> Synced(readers[h], node, disk) || Elsewhere(readers[h], node, disk, offset)
      modifies if h in readers then ReaderParts(readers[h]) else {}
      ensures Valid()
      ensures h !in readers ==> r == Failure(InvalidFileHandle)
      ensures h in readers ==> r.Success?
      ensures h in readers && len == 0 ==> r.value == [] && unchanged(ReaderParts(readers[h]))
      ensures h in readers && len > 0 ==>
                var lost := old(PastEnd(readers[h], node, disk));
                && Synced(readers[h], node, disk)
                && r.value == Given(c.P, disk, lost, offset, len)
                && (PastEnd(readers[h], node, disk) <==> DrainedAfter(c.P, disk, lost, offset, len))
      ensures h in readers && len > 0 && offset <= Reach(c.P, |disk|) ==>
                var inLast := disk != [] && Div(offset, c.P) == Div(|disk| - 1, c.P);
                r.value == if inLast && old(PastEnd(readers[h], node, disk)) then [] else disk[offset..Min(offset + len, |disk|)]
      ensures h in readers && len > 0 && Reach(c.P, |disk|) < offset ==> r.value == []
    {
      hide Stores, Off, Chunk, Div, Mod, Synced, PastEnd, Elsewhere, DrainedAfter;
      if h !in readers { return Failure(InvalidFileHandle); }
      if len == 0 { return Success([]); }
      var got := ReadSynced(readers[h], node, disk, offset, len);
      return Success(got);
    }

    /** The write does not leave a front that is pending for another block, which stores it short. */
    ghost predicate Stays(h: nat, offset: nat, data: seq<byte>)
      reads *
    {
      h in WriterHandle() && data != [] && offset <= maxLen ==> AfterSeek(c.P, Writer(), offset).State?
    }

    /**
     * Writes at `offset`, up to the end of its block and within the cipher's bound, filling a gap with
     * zeros. The size follows, and every other reader starts again on what is stored. The content is the
     * positioned write exactly when the seek puts no zeros over stored bytes behind a front.
     */
    method Write(h: nat, offset: nat, data: seq<byte>) returns (r: FsResult<nat>)
      requires Valid() && Stays(h, offset, data)
      modifies this`readers, this`size, this`writing, this`disk
      modifies if writing.Some? then WriterParts(writing.value.writer) + {node} else {}
      ensures Valid() && node == old(node) && WriterHandle() == old(WriterHandle()) && readers.Keys == old(readers.Keys)
      ensures writing.Some? ==> old(writing).Some? && writing.value.writer == old(writing).value.writer
      ensures r == (if h !in old(WriterHandle()) then Failure(InvalidFileHandle)
                    else if data == [] then Success(0)
                    else if offset > maxLen then Failure(MaxFilesizeExceeded)
                    else Success(Min(|Bounded(maxLen, offset, data)|, c.P - Mod(offset, c.P))))
      ensures r.Failure? || data == [] ==>
                && Plain() == old(Plain()) && size == old(size) && readers == old(readers) && writing == old(writing)
                && (writing.Some? ==> Writer() == old(Writer()))
      ensures r.Success? && data != [] ==>
                && old(writing).Some? && writing.Some? && r.value <= |data|
                && Writer() == AfterCall(c.P, AfterSeek(c.P, old(Writer()), offset), Bounded(maxLen, offset, data))
                && |Plain()| == Max(|old(Plain())|, offset + r.value)
                && (Plain() == WriteAt(old(Plain()), offset, data[..r.value]) <==> Clear(old(Writer()), offset))
                && (old(Sized()) ==> Sized())
                && (|old(Plain())| <= maxLen ==> |Plain()| <= maxLen)
                && forall g :: g in readers && g != h ==> AtStart(readers[g], node, disk)
      ensures h in old(WriterHandle()) ==> OwnUntouched(h)
      ensures h in old(WriterHandle()) && !old(writing.value.writer.inner.buf.dirty) && offset <= |old(Plain())| ==>
                disk == old(disk) && node.bytes == old(node.bytes)
      ensures h in old(WriterHandle()) && h in readers && disk == old(disk) && node.bytes == old(node.bytes) ==>
                Keeps(readers[h])
    {
      hide Stores, Off, Chunk, Div, Mod, WriteAt, ZeroExtend, Splice, AtStart, Synced, Separate, WriterValid, Place;
      hide FileStreams.Plain, RingCryptoRead.Drained, StateOf, AfterSeek, AfterCall, Clear;
      if h !in WriterHandle() { return Failure(InvalidFileHandle); }
      if data == [] { return Success(0); }
      if offset > maxLen { return Failure(MaxFilesizeExceeded); }
      var buf := Bounded(maxLen, offset, data);
      var n := PutThrough(offset, buf);
      assert buf[..n] == data[..n];
      ResetOthers(h);
      return Success(n);
    }

    /** Everything that validity asks for but the readers. */
    ghost predicate WriterValid()
      reads *
    {
      && Separate()
      && Stores(c, node.bytes, disk)
      && (writing.Some? ==>
            var w := writing.value.writer;
            && w.Live() && w.inner.c == c && w.inner.out.node == node && w.inner.stored == disk
            && !Keeping(c.P, maxLen, StateOf(w)))
    }

    /** The state of the writer. */
    ghost function Writer(): State
      requires writing.Some?
      reads *
    {
      StateOf(writing.value.writer)
    }

    /** Only the front of a stored block is pending over it. */
    ghost predicate FrontPending()
      reads *
    {
      writing.Some? && Writer().cache.Front?
    }

    lemma OwnApart()
      requires WriterValid() && writing.Some?
      ensures writing.value.handle in readers ==> ApartFrom(readers[writing.value.handle], writing.value.writer)
    {
      hide Stores;
    }

    /** Writes through the writer and follows its position with the size. */
    method PutThrough(offset: nat, buf: seq<byte>) returns (n: nat)
      requires WriterValid() && writing.Some? && offset <= maxLen && (buf == [] ==> offset == maxLen)
      requires AfterSeek(c.P, Writer(), offset).State?
      modifies this`writing, this`disk, WriterParts(writing.value.writer), node
      ensures WriterValid() && Separate() && Stores(c, node.bytes, disk)
      ensures writing.Some? && WriterHandle() == old(WriterHandle())
      ensures writing.value.writer == old(writing.value.writer)
      ensures n <= |buf| && n == Min(|buf|, c.P - Mod(offset, c.P))
      ensures Writer() == AfterCall(c.P, AfterSeek(c.P, old(Writer()), offset), buf)
      ensures |Plain()| == Max(|old(Plain())|, offset + n) && (old(Sized()) ==> Sized())
      ensures Plain() == WriteAt(old(Plain()), offset, buf[..n]) <==> Clear(old(Writer()), offset)
      ensures !old(writing.value.writer.inner.buf.dirty) && offset <= |old(Plain())| ==>
                disk == old(disk) && node.bytes == old(node.bytes)
      ensures old(writing.value.handle in readers) && disk == old(disk) && node.bytes == old(node.bytes) ==>
                Keeps(old(readers[writing.value.handle]))
      ensures OwnUntouched(old(writing.value.handle))
    {
      hide Stores, Off, Chunk, Div, Mod, WriteAt, ZeroExtend, Splice, Synced, RingCryptoRead.Drained;
      hide RingCryptoWriteSeek.Live, RingCryptoWriteSeek.Plain, StateOf, AfterSeek, AfterCall, Keeping, Clear, Separate;
      var w := writing.value.writer;
      OwnApart();
      PlainOf(w);
      var pos: nat;
      n, pos := SeekAndWrite(w, maxLen, offset, buf);
      FollowTo(pos);
    }

    /** The writer's size follows its position, and what it stored is on disk. */
    method FollowTo(pos: nat)
      requires Separate() && writing.Some?
      modifies this`writing, this`disk
      ensures Separate()
      ensures writing == Some(old(writing).value.(size := Max(old(writing).value.size, pos)))
      ensures disk == writing.value.writer.inner.stored
    {
      if pos > writing.value.size {
        writing := Some(writing.value.(size := pos));
      }
      disk := writing.value.writer.inner.stored;
    }

    /** Stores a full pending block, and rebuilds the other readers. */
    method Flush(h: nat) returns (r: FsResult<()>)
      requires Valid()
      modifies this`readers, this`size, this`disk
      modifies if writing.Some? then WriterParts(writing.value.writer) + {node} else {}
      ensures Valid() && Plain() == old(Plain()) && (old(Sized()) ==> Sized())
      ensures r == if h == 0 || h in readers || h in WriterHandle() then Success(()) else Failure(InvalidFileHandle)
      ensures writing == old(writing) && readers.Keys == old(readers.Keys)
      ensures h in WriterHandle() ==> OwnUntouched(h)
      ensures h != 0 && h in WriterHandle() ==>
                && (forall g :: g in readers && g != h ==> AtStart(readers[g], node, disk))
                && writing.Some? && Writer() == AfterFlush(old(Writer()))
      ensures !(h != 0 && h in WriterHandle()) && writing.Some? ==> Writer() == old(Writer())
    {
      hide Stores, Off, Chunk, Splice, AtStart, Synced, Separate, WriterValid, FileStreams.Plain, StateOf, Place;
      if h == 0 { return Success(()); }
      if h in WriterHandle() {
        FlushWriter();
        ResetOthers(h);
        return Success(());
      }
      return if h in readers then Success(()) else Failure(InvalidFileHandle);
    }

    method FlushWriter()
      requires WriterValid() && writing.Some?
      modifies this`disk, WriterParts(writing.value.writer), node
      ensures WriterValid() && Separate() && Stores(c, node.bytes, disk) && writing == old(writing)
      ensures Plain() == old(Plain()) && (old(Sized()) ==> Sized()) && Writer() == AfterFlush(old(Writer()))
      ensures OwnUntouched(writing.value.handle)
    {
      hide Stores, Off, Chunk, Splice, Mod, Separate, RingCryptoWriteSeek.Live, RingCryptoWriteSeek.Plain, StateOf;
      var w := writing.value.writer;
      OwnApart();
      PlainOf(w);
      StepFlush(w);
      PlainOf(w);
      Storing(w);
      disk := w.inner.stored;
    }

    /** A front was stored over its block of `a`; what the stream decodes to is up to the cipher. */
    ghost predicate CutInto(a: seq<byte>)
      reads this`disk, this`node, node`bytes
    {
      exists k, x :: StoredShort(c, a, k, x, node.bytes) && disk == WriteAt(a, Off(k, c.P), x)
    }

    /** Stores all that is pending; the writer is finished with. */
    method FinishWriter()
      requires WriterValid() && writing.Some?
      modifies this`disk, WriterParts(writing.value.writer), node
      ensures Separate() && writing == old(writing) && disk == old(Plain())
      ensures if old(FrontPending()) then CutInto(old(disk)) else Stores(c, node.bytes, disk)
    {
      hide Stores, Off, Chunk, Splice, WriteAt, Separate, StateOf, RingCryptoWriteSeek.Live;
      var w := writing.value.writer;
      Finishable(w);
      PlainOf(w);
      ghost var d, a, k, x := node.bytes, disk, w.inner.blockIndex, w.inner.buf.Content();
      var f := w.Finish();
      disk := w.inner.stored;
      if old(FrontPending()) {
        CutIsShort(c, d, a, k, w.inner.lastNonce, x);
      }
    }

    /**
     * Closes a handle; zero, which is never issued, is accepted. Closing the writer stores its content, and
     * every reader that stays open starts again on that content. A front that is pending is stored short:
     * the file holds the content exactly when the cipher opens the mixed block to what it should be.
     */
    method Release(h: nat) returns (r: FsResult<()>)
      requires Valid() && (h in WriterHandle() && FrontPending() ==> readers.Keys <= {h})
      modifies this
      modifies if writing.Some? then WriterParts(writing.value.writer) + {node} else {}
      ensures Plain() == old(Plain()) && (old(Sized()) ==> Sized()) && node == old(node)
      ensures if h != 0 && h in old(WriterHandle()) && old(FrontPending()) then
                CutInto(old(disk)) && (Valid() <==> Stores(c, node.bytes, disk))
              else Valid()
      ensures r == if h == 0 || h in old(readers) || h in old(WriterHandle()) then Success(()) else Failure(InvalidFileHandle)
      ensures h == 0 ==> readers == old(readers) && writing == old(writing) && size == old(size)
      ensures h != 0 ==> readers.Keys == old(readers.Keys) - {h}
      ensures h != 0 && h in old(WriterHandle()) ==>
                && writing == None && disk == old(Plain())
                && forall g :: g in readers ==> fresh(ReaderParts(readers[g])) && AtStart(readers[g], node, disk)
      ensures h !in old(WriterHandle()) ==> writing == old(writing)
    {
      hide Stores, Off, Chunk, Splice, WriteAt, AtStart, CutInto, WriterValid, FileStreams.Plain, FileStreams.FrontPending;
      if h == 0 { return Success(()); }
      var validFh := false;
      if h in readers {
        DropReader(h);
        validFh := true;
      }
      if h in WriterHandle() {
        CloseWriter();
        validFh := true;
      }
      return if validFh then Success(()) else Failure(InvalidFileHandle);
    }

    method DropReader(h: nat)
      requires Valid() && h in readers
      modifies this`readers, this`size
      ensures Valid() && readers == old(readers) - {h} && size == GetSize()
      ensures Plain() == old(Plain()) && GetSize() == old(GetSize()) && FrontPending() == old(FrontPending())
    {
      hide Stores, Off, Chunk, Splice, Synced;
      readers := readers - {h};
      size := GetSize();
    }

    method CloseWriter()
      requires Valid() && writing.Some? && writing.value.handle !in readers
      requires FrontPending() ==> readers.Keys <= {}
      modifies this, WriterParts(writing.value.writer), node
      ensures node == old(node) && readers.Keys == old(readers.Keys)
      ensures if old(FrontPending()) then CutInto(old(disk)) && (Valid() <==> Stores(c, node.bytes, disk)) else Valid()
      ensures writing == None && disk == Plain() == old(Plain())
      ensures size == GetSize() == old(GetSize())
      ensures forall g :: g in readers ==> fresh(ReaderParts(readers[g])) && AtStart(readers[g], node, disk)
    {
      hide Stores, Off, Chunk, Splice, WriteAt, AtStart, Synced, Separate, WriterValid, CutInto, FileStreams.FrontPending;
      hide Place, FileStreams.OwnUntouched;
      var h := writing.value.handle;
      FinishWriter();
      size := GetSize();
      ForgetWriter();
      ResetOthers(h);
    }

    method ForgetWriter()
      requires Separate()
      modifies this`writing
      ensures writing == None && Separate() && (WriterValid() <==> Stores(c, node.bytes, disk)) && Plain() == disk
    {
      hide Stores;
      writing := None;
    }

    /** The recorded size promises more content to keep than there is, and content is to be kept. */
    ghost predicate ShortOf(n: nat)
      reads *
    {
      n != 0 && n != GetSize() && Min(n, GetSize()) > |Plain()|
    }

    /**
     * Truncates or extends the file. The content up to the recorded size becomes its first `n` bytes, zeros
     * where it had fewer; pending writes count, and the writer goes on over the new content. The recorded
     * size is `n`, except that with readers and a writer open together a truncation is recorded as the old
     * size: rebuilding a reader saves attributes while the writer still carries the old size. After that,
     * resizing to more than the content meets its end while copying, and fails.
     */
    method SetLen(n: nat) returns (r: FsResult<()>)
      requires Valid() && (n != GetSize() ==> !FrontPending())
      modifies this
      modifies if writing.Some? then WriterParts(writing.value.writer) + {node} else {node}
      ensures r == (if old(ShortOf(n)) then Failure(Io) else Success(())) && Valid()
      ensures r.Failure? || n == old(GetSize()) ==>
                Plain() == old(Plain()) && GetSize() == old(GetSize()) && node == old(node)
      ensures r.Success? && n != old(GetSize()) ==>
                Plain() == Resize(old(Plain())[..Min(old(GetSize()), |old(Plain())|)], n)
      ensures old(Sized()) ==> r.Success? && Plain() == Resize(old(Plain()), n)
      ensures readers.Keys == old(readers.Keys) && WriterHandle() == old(WriterHandle())
      ensures r.Success? && n != old(GetSize()) ==>
                && disk == Plain()
                && GetSize() == (if old(writing).Some? && old(readers) != map[] then Max(n, old(GetSize())) else n)
                && (forall g :: g in readers ==> AtStart(readers[g], node, disk))
                && (Sized() <==> !(old(writing).Some? && old(readers) != map[] && n < old(GetSize())))
      ensures n == old(GetSize()) ==> writing == old(writing) && FrontPending() == old(FrontPending())
      ensures node == old(node) || fresh(node)
      ensures n != old(GetSize()) ==> NewlyWriting() && (writing.Some? ==> fresh(WriterParts(writing.value.writer)))
    {
      hide Stores, Off, Chunk, Splice, AtStart, Synced, Separate, WriterValid, Resize;
      var oldSize := GetSize();
      ResizeSame(Plain());
      assert Plain()[..|Plain()|] == Plain();
      if n == oldSize {
        return Success(());
      }
      FlushAndResetWriter();
      r := RewriteAndReset(n, oldSize);
    }

    lemma ResizeSame(a: seq<byte>)
      ensures Resize(a, |a|) == a
    {
    }

    /** A writer that has nothing pending and was not finished. */
    ghost predicate WriterIdle()
      reads this, if writing.Some? then {writing.value.writer.inner, writing.value.writer.inner.buf} else {}
    {
      writing.Some? ==>
        var w := writing.value.writer;
        w.inner.buf.Empty() && w.inner.buf.Valid() && !w.inner.finished
    }

    /** The new content, the new size, and then new readers and a new writer on it. */
    method RewriteAndReset(n: nat, oldSize: nat) returns (r: FsResult<()>)
      requires Valid() && WriterIdle() && NewlyWriting() && disk == Plain() && oldSize == GetSize()
      requires writing.Some? ==> writing.value.size == oldSize
      modifies this, node, if writing.Some? then {writing.value.writer.inner} else {}
      ensures r == (if n != 0 && Min(n, oldSize) > |old(disk)| then Failure(Io) else Success(())) && Valid()
      ensures disk == Plain() && NewlyWriting()
      ensures r.Failure? ==>
                && disk == old(disk) && node == old(node) && GetSize() == old(GetSize())
                && readers == old(readers) && writing == old(writing)
      ensures readers.Keys == old(readers.Keys) && WriterHandle() == old(WriterHandle())
      ensures writing.Some? == old(writing).Some?
      ensures r.Success? ==>
                && disk == Resize(old(disk)[..Min(oldSize, |old(disk)|)], n)
                && GetSize() == (if old(writing).Some? && old(readers) != map[] then Max(n, oldSize) else n)
                && (forall g :: g in readers ==> AtStart(readers[g], node, disk))
                && (writing.Some? ==> fresh(WriterParts(writing.value.writer)))
      ensures node == old(node) || fresh(node)
    {
      hide Stores, Off, Chunk, Splice, AtStart, Separate, Resize;
      var copied := Rewrite(n, oldSize);
      match copied {
        case Failure(e) => return Failure(e);
        case Success(_) =>
      }
      size := n;
      ResetAll();
      return Success(());
    }

    /** Stores what the writer has pending, saves its size, and starts a new writer. */
    method FlushAndResetWriter()
      requires Valid() && !FrontPending()
      modifies this
      modifies if writing.Some? then WriterParts(writing.value.writer) + {node} else {}
      ensures Valid() && node == old(node) && readers.Keys == old(readers.Keys)
      ensures disk == Plain() == old(Plain()) && GetSize() == old(GetSize())
      ensures WriterHandle() == old(WriterHandle()) && writing.Some? == old(writing).Some?
      ensures writing.Some? ==>
                && size == writing.value.size == old(GetSize())
                && fresh(WriterParts(writing.value.writer))
      ensures writing.None? ==> readers == old(readers) && size == old(size)
      ensures WriterIdle() && NewlyWriting()
    {
      hide Stores, Off, Chunk, Splice, AtStart, Synced;
      if writing.Some? {
        FinishAndSave();
        InstallWriter();
      }
    }

    method FinishAndSave()
      requires WriterValid() && writing.Some? && !FrontPending()
      modifies this`disk, this`size, this`readers, WriterParts(writing.value.writer), node
      ensures Separate() && Stores(c, node.bytes, disk) && readers.Keys == old(readers.Keys)
      ensures writing == old(writing) && disk == old(Plain()) && size == GetSize() == old(GetSize())
      ensures forall g :: g in readers && g !in WriterHandle() ==> AtStart(readers[g], node, disk)
    {
      hide Stores, Off, Chunk, Splice, AtStart, Synced, Separate, WriterValid;
      FinishWriter();
      size := GetSize();
      ResetReaders({writing.value.handle});
    }

    /** A new writer under the same handle, carrying the stored size. */
    method InstallWriter()
      requires Separate() && Stores(c, node.bytes, disk) && writing.Some?
      requires forall g :: g in readers && g !in WriterHandle() ==> AtStart(readers[g], node, disk)
      modifies this`writing
      ensures Valid() && disk == Plain()
      ensures writing.Some? && WriterHandle() == old(WriterHandle()) && writing.value.size == size
      ensures fresh(WriterParts(writing.value.writer)) && WriterIdle() && NewlyWriting()
    {
      hide Stores, Off, Chunk, Splice, AtStart, Synced;
      StartIsSynced(WriterHandle());
      var w := NewWriter();
      writing := Some(WriteCtx(writing.value.handle, size, w));
    }

    /** Replaces the stored content: in place when it becomes empty, else by a new file under the same path. */
    method Rewrite(n: nat, oldSize: nat) returns (r: FsResult<()>)
      requires Stores(c, node.bytes, disk)
      modifies this`node, this`disk, node
      ensures r == if n != 0 && Min(n, oldSize) > |old(disk)| then Failure(Io) else Success(())
      ensures r.Failure? ==> disk == old(disk) && node == old(node) && node.bytes == old(node.bytes)
      ensures r.Success? ==> disk == Resize(old(disk)[..Min(oldSize, |old(disk)|)], n) && Stores(c, node.bytes, disk)
      ensures node == old(node) || fresh(node)
    {
      hide Stores, Off, Chunk, Splice;
      if n == 0 {
        node.bytes := [];
        EmptyStored(c);
        disk := [];
        return Success(());
      }
      var copied := CopyResized(c, node, disk, n, oldSize);
      match copied {
        case Err(e) => return Failure(Io);
        case Ok(temp) =>
          node := temp;
          disk := Resize(disk[..Min(oldSize, |disk|)], n);
          return Success(());
      }
    }

    /** Rebuilds every reader, then finishes the writer, which has nothing pending, and starts a new one. */
    method ResetAll()
      requires Separate() && Stores(c, node.bytes, disk)
      requires WriterIdle()
      modifies this`readers, this`size, this`writing
      modifies if writing.Some? then {writing.value.writer.inner} else {}
      ensures Valid() && readers.Keys == old(readers.Keys) && disk == Plain() && NewlyWriting()
      ensures WriterHandle() == old(WriterHandle()) && writing.Some? == old(writing).Some?
      ensures size == if old(readers) == map[] then old(size) else old(GetSize())
      ensures writing.Some? ==> writing.value.size == size && fresh(WriterParts(writing.value.writer))
      ensures forall g :: g in readers ==> AtStart(readers[g], node, disk)
    {
      hide Stores, Off, Chunk, Splice, AtStart, Separate;
      ResetReaders({});
      if writing.Some? {
        ReplaceWriter();
      }
      StartIsSynced({});
    }

    /** Finishes a writer that has nothing pending, and starts a new one. */
    method ReplaceWriter()
      requires Separate() && Stores(c, node.bytes, disk) && writing.Some?
      requires var w := writing.value.writer;
               w.inner.buf.Empty() && w.inner.buf.Valid() && !w.inner.finished
      requires forall g :: g in readers ==> AtStart(readers[g], node, disk)
      modifies this`writing, writing.value.writer.inner
      ensures WriterValid() && disk == Plain() && NewlyWriting()
      ensures writing.Some? && WriterHandle() == old(WriterHandle()) && writing.value.size == size
      ensures fresh(WriterParts(writing.value.writer))
      ensures forall g :: g in readers ==> AtStart(readers[g], node, disk)
    {
      hide Stores, Off, Chunk, Splice, AtStart;
      var f := writing.value.writer.Finish();
      InstallWriter();
    }

    lemma StartIsSynced(but: set<nat>)
      requires forall g :: g in readers && g !in but ==> AtStart(readers[g], node, disk)
      ensures forall g :: g in readers && g !in but ==> Synced(readers[g], node, disk)
    {
    }
  }

  /** Seeks to `offset`, checks that it got there, and fills the request. */
  method ReadAt(reader: RingCryptoRead, offset: nat, len: nat) returns (got: seq<byte>)
    requires (reader.Valid() || (reader.Loose() && reader.Elsewhere(Start(offset)))) && len > 0
    modifies reader, reader.input, reader.buf, reader.buf.data
    ensures reader.plain == old(reader.plain) && reader.Valid()
    ensures var drained := old(reader.Valid() && reader.Drained());
            && got == Given(reader.c.P, reader.plain, drained, offset, len)
            && (reader.Drained() <==> DrainedAfter(reader.c.P, reader.plain, drained, offset, len))
  {
    hide Stores, Off, Chunk, Div, Mod, RingCryptoRead.Consistent, RingCryptoRead.Next, RingCryptoRead.Drained;
    var pos := Position(reader, offset);
    if pos != Ok(offset) { return []; }
    got := FillRequest(reader, len);
  }

  /** The bytes from the cursor, as many as asked for or as there are. */
  method FillRequest(reader: RingCryptoRead, len: nat) returns (got: seq<byte>)
    requires reader.Valid() && len > 0
    modifies reader, reader.input, reader.buf, reader.buf.data
    ensures reader.plain == old(reader.plain) && reader.Valid()
    ensures old(reader.Next()) <= |reader.plain|
    ensures got == reader.plain[old(reader.Next())..Min(old(reader.Next()) + len, |reader.plain|)]
    ensures reader.Drained() <==> |got| < len && reader.plain != []
  {
    hide Stores, Off, Chunk, RingCryptoRead.Consistent, RingCryptoRead.Next, RingCryptoRead.Drained;
    reader.NextIsPos();
    ghost var rest := FromCrypto(reader).Rest();
    var read := ReadUpTo(FromCrypto(reader), len);
    got := match read case Ok(x) => x case Err(_) => [];
    assert got == rest[..|got|];
  }

  /** Seeks, and asks where that led. */
  method Position(reader: RingCryptoRead, offset: nat) returns (pos: Result<nat>)
    requires reader.Valid() || (reader.Loose() && reader.Elsewhere(Start(offset)))
    modifies reader, reader.input, reader.buf, reader.buf.data
    ensures reader.plain == old(reader.plain) && reader.Valid()
    ensures var P, a, drained := reader.c.P, reader.plain, old(reader.Valid() && reader.Drained());
            var end := Reach(P, |a|);
            && 0 <= end <= |a|
            && (reader.Drained() <==> Missed(P, a, drained, Min(offset, end)))
            && (!reader.Drained() ==> reader.Next() == Min(offset, end) && (pos == Ok(offset) <==> offset <= end))
            && (reader.Drained() ==> reader.Next() == |a|)
  {
    hide Stores, Off, Chunk, Div, Mod, RingCryptoRead.Consistent;
    reader.ReportedEndFits();
    if reader.Valid() {
      LosesIsMissed(reader, Min(offset, reader.ReportedEnd()));
    } else {
      reader.LooseBlock();
    }
    var s := reader.Seek(Start(offset));
    reader.NextIsPos();
    if reader.Drained() { reader.DrainedFits(); reader.DrainedNext(); }
    pos := reader.Seek(Current(0));
    reader.NextIsPos();
  }

  /** Brings the reader up to date with what is stored, if need be, and reads. */
  method ReadSynced(reader: RingCryptoRead, node: Inode, ghost disk: seq<byte>, offset: nat, len: nat)
    returns (got: seq<byte>)
    requires Stores(reader.c, node.bytes, disk) && len > 0
    requires Synced(reader, node, disk) || Elsewhere(reader, node, disk, offset)
    modifies reader, reader.input, reader.buf, reader.buf.data
    ensures Synced(reader, node, disk)
    ensures var lost := old(PastEnd(reader, node, disk));
            && got == Given(reader.c.P, disk, lost, offset, len)
            && (PastEnd(reader, node, disk) <==> DrainedAfter(reader.c.P, disk, lost, offset, len))
  {
    hide Stores, Off, Chunk, Div, Mod, RingCryptoRead.Consistent, Given, DrainedAfter;
    if !Synced(reader, node, disk) {
      reader.plain := disk;
      if reader.Valid() && reader.Drained() { ElsewhereIsFree(reader, offset, len); }
    }
    got := ReadAt(reader, offset, len);
  }

  /** Being past the end does not matter in another block. */
  lemma ElsewhereIsFree(r: RingCryptoRead, offset: nat, len: nat)
    requires r.Valid() && r.Drained() && r.Elsewhere(Start(offset))
    ensures Given(r.c.P, r.plain, true, offset, len) == Given(r.c.P, r.plain, false, offset, len)
    ensures DrainedAfter(r.c.P, r.plain, true, offset, len) == DrainedAfter(r.c.P, r.plain, false, offset, len)
  {
    hide Stores, Off, Chunk, Div, Mod;
    r.DrainedBlock();
    r.LooseBlock();
    r.ReportedEndFits();
  }

  /** A clean block that a seek within the bound would keep for the one behind the end. */
  predicate Keeping(P: nat, maxLen: nat, s: State)
    requires P > 0
  {
    s.State? && (s.cache.Leftover? || (s.cache.Loaded? && Mod(|s.a|, P) == 0 && |s.a| <= maxLen))
  }

  /** A seek to `t` puts no zeros over stored bytes behind a front that were not zero. */
  predicate Clear(s: State, t: nat) {
    s.State? && s.cache.Front? ==> ZeroFrom(s.a, s.cache.end, t)
  }

  /**
   * What a positioned write does to the writer. A seek alone, which a write at the bound is, never leaves a
   * clean block that a later seek within the bound could keep.
   */
  lemma CallWithin(P: nat, maxLen: nat, s: State, t: nat, x: seq<byte>)
    requires P > 0 && Formed(P, s) && !Keeping(P, maxLen, s) && t <= maxLen && (x == [] ==> t == maxLen)
    requires AfterSeek(P, s, t).State?
    ensures Mod(t, P) < P
    ensures var s1 := AfterSeek(P, s, t);
            var s2, n := AfterCall(P, s1, x), Min(|x|, P - Mod(t, P));
            && s1.pos == t && !Full(P, s1) && Taken(P, s1, x) == x[..n]
            && Formed(P, s2) && s2.pos == t + n && !Keeping(P, maxLen, s2)
            && |s2.a| == Max(|s.a|, t + n)
            && (s2.a == WriteAt(s.a, t, x[..n]) <==> Clear(s, t))
  {
    hide Div, Mod, Off, WriteAt, ZeroExtend;
    var s1 := AfterSeek(P, s, t);
    var y := Taken(P, s1, x);
    DivMod(t, P);
    SeekAgrees(P, s, t);
    WriteAtNothing(s.a, t);
    if x != [] { SeekWriteExactly(P, s, t, y); }
  }

  /** A positioned write through the writer: how much was taken, and where it ends. */
  method SeekAndWrite(w: RingCryptoWriteSeek, maxLen: nat, offset: nat, data: seq<byte>) returns (n: nat, pos: nat)
    requires w.Live() && !Keeping(w.inner.c.P, maxLen, StateOf(w)) && AfterSeek(w.inner.c.P, StateOf(w), offset).State?
    requires offset <= maxLen && (data == [] ==> offset == maxLen)
    modifies w.inner, w.inner.out, w.inner.out.node, w.inner.buf, w.inner.buf.data, w.decryptBuf, w.decryptBuf.data
    ensures w.Live() && !Keeping(w.inner.c.P, maxLen, StateOf(w))
    ensures StateOf(w) == AfterCall(w.inner.c.P, AfterSeek(w.inner.c.P, old(StateOf(w)), offset), data)
    ensures n == Min(|data|, w.inner.c.P - Mod(offset, w.inner.c.P)) && pos == offset + n
    ensures |w.Plain()| == Max(|old(w.Plain())|, pos)
    ensures w.Plain() == WriteAt(old(w.Plain()), offset, data[..n]) <==> Clear(old(StateOf(w)), offset)
    ensures Stores(w.inner.c, w.inner.out.node.bytes, w.inner.stored)
    ensures !old(w.inner.buf.dirty) && offset <= |old(w.Plain())| ==>
              w.inner.out.node.bytes == old(w.inner.out.node.bytes) && w.inner.stored == old(w.inner.stored)
  {
    hide Off, Div, Mod, Stores, WriteAt, ZeroExtend, Splice, Chunk, RingCryptoWriteSeek.Live, RingCryptoWriteSeek.Plain;
    hide RingCryptoWriteSeek.Pos, StateOf, AfterSeek, AfterCall, Keeping, Clear, Full, Taken;
    StateFormed(w);
    CallWithin(w.inner.c.P, maxLen, StateOf(w), offset, data);
    PlainOf(w);
    StepSeek(w, offset);
    var got := StepCall(w, data);
    n := got.value;
    assert n == Min(|data|, w.inner.c.P - Mod(offset, w.inner.c.P));
    PlainOf(w);
    Storing(w);
    pos := w.StreamPosition();
  }

  lemma Storing(w: RingCryptoWriteSeek)
    requires w.Live()
    ensures Stores(w.inner.c, w.inner.out.node.bytes, w.inner.stored)
  {
    hide Stores, Off, Chunk;
  }

  /**
   * A new file holding the first `n` of `oldSize` bytes of the content of another, or all of them and
   * zeros; fails when the content has fewer bytes than are to be kept.
   */
  method CopyResized(c: Codec, node: Inode, ghost disk: seq<byte>, n: nat, oldSize: nat) returns (r: Result<Inode>)
    requires Stores(c, node.bytes, disk) && n > 0
    ensures if Min(n, oldSize) > |disk| then r == Err(UnexpectedEof)
            else r.Ok? && fresh(r.value) && Stores(c, r.value.bytes, Resize(disk[..Min(oldSize, |disk|)], n))
  {
    hide Stores, Off, Chunk, Splice, WriteAt, Resize, RingCryptoWrite.Laid;
    var temp := new Inode([]);
    var to := new File(temp);
    EmptyStored(c);
    var writer := new RingCryptoWrite(c, to, []);
    FreshSink(writer);
    var copied := CopyKept(c, node, disk, n, oldSize, ToCrypto(writer));
    match copied {
      case Err(e) => return Err(e);
      case Ok(_) =>
    }
    writer.EndNotOverrun(0);
    var out := writer.Finish();
    return Ok(temp);
  }

  /** Copies what is kept of a file's content, and fills up with zeros. */
  method CopyKept(c: Codec, node: Inode, ghost disk: seq<byte>, n: nat, oldSize: nat, w: Sink) returns (r: Result<()>)
    requires Stores(c, node.bytes, disk) && n > 0
    requires w.Ready() && !w.Blocked() && w.Last() && w.Content() == [] && w.Pos() == 0 && node !in w.Parts()
    modifies w.Parts()
    ensures r == if Min(n, oldSize) <= |disk| then Ok(()) else Err(UnexpectedEof)
    ensures r.Ok? ==> w.Ready() && w.Written() && w.Last() && w.Content() == Resize(disk[..Min(oldSize, |disk|)], n)
  {
    hide Stores, Off, Chunk, Splice, WriteAt, Resize, Source.Ready, Source.Rest, Source.Met;
    hide Sink.Ready, Sink.Blocked, Sink.Written, Sink.Content, Sink.Pos, Sink.Last;
    var m := Min(n, oldSize);
    var from := NewSource(c, node, disk);
    var copied := Copy(from, w, m, false);
    match copied {
      case Err(e) => return Err(e);
      case Ok(_) =>
    }
    FromNothing(disk, m);
    if m == 0 { w.Kept(); }
    ResizedByParts(disk, n, oldSize);
    if n > oldSize {
      r := FillZeros(w, n - oldSize);
    } else {
      r := Ok(());
    }
  }

  lemma FreshSink(w: RingCryptoWrite)
    requires w.Valid() && w.AtEnd() && !w.finished
    ensures ToCrypto(w).Ready() && !ToCrypto(w).Blocked() && ToCrypto(w).Last()
    ensures ToCrypto(w).Content() == w.Plain() && ToCrypto(w).Pos() == w.Pos()
  {
    hide RingCryptoWrite.Laid, RingCryptoWrite.Plain;
    w.EndNotOverrun(0);
  }

  /** A decrypting reader at the start of a file. */
  method NewSource(c: Codec, node: Inode, ghost disk: seq<byte>) returns (r: Source)
    requires Stores(c, node.bytes, disk)
    ensures fresh(r.Parts()) && r.Node() == node && r.Ready() && r.Rest() == disk
  {
    hide Stores, Chunk;
    var from := new File(node);
    var reader := new RingCryptoRead(c, from, disk);
    r := FromCrypto(reader);
  }

  /** Copying what is kept and then appending zeros resizes. */
  lemma ResizedByParts(a: seq<byte>, n: nat, oldSize: nat)
    requires Min(n, oldSize) <= |a|
    ensures var m, kept := Min(n, oldSize), a[..Min(oldSize, |a|)];
            Resize(kept, n) == if n > oldSize then WriteAt(a[..m], m, Zeros(n - oldSize)) else a[..m]
  {
  }

  lemma FromNothing(a: seq<byte>, m: nat)
    requires m <= |a|
    ensures WriteAt([], 0, a[..m]) == a[..m]
  {
  }
}
