/** The decrypting reader, sequential and seekable. */
module CryptoRead {
  import opened Bytes
  import opened Layout
  import opened Buffers
  import opened CryptoWrite

  class RingCryptoRead {
    const c: Codec
    const input: File
    const buf: BufMut
    var blockIndex: nat
    /** The plaintext of the stored stream. */
    ghost var plain: seq<byte>

    /**
     * The input cursor is behind block `blockIndex - 1`; a nonempty buffer holds that block, opened,
     * behind its nonce.
     */
    ghost predicate Consistent()
      reads this, input, input.node`bytes, buf, buf.data
    {
      && buf.Valid() && buf.data.Length == c.S()
      && Stores(c, input.node.bytes, plain)
      && input.pos == Min(Off(blockIndex, c.S()), |input.node.bytes|)
      && (blockIndex > 0 ==> Off(blockIndex - 1, c.P) < |plain|)
      && if buf.available == 0 then buf.posRead == 0
         else blockIndex > 0 && buf.posRead >= NONCE_LEN
              && buf.data[NONCE_LEN..buf.available] == Chunk(plain, blockIndex - 1, c.P)
    }

    /** The stream is the one of `plain`, whatever is cached of it. */
    ghost predicate Loose()
      reads this, input, input.node`bytes, buf
    {
      buf.Valid() && buf.data.Length == c.S() && Stores(c, input.node.bytes, plain)
    }

    /** Between calls an empty buffer means that nothing was read yet, or that the end was read past. */
    ghost predicate Valid()
      reads this, input, input.node`bytes, buf, buf.data
    {
      Consistent() && (Drained() ==> |plain| <= Off(blockIndex, c.P))
    }

    /** The offset of the next byte that a read gives. */
    ghost function Next(): nat
      reads this, buf
    {
      if buf.available > 0 && blockIndex > 0 && buf.posRead >= NONCE_LEN
      then Off(blockIndex - 1, c.P) + buf.posRead - NONCE_LEN
      else Min(Off(blockIndex, c.P), |plain|)
    }

    /** Where the cached block ends, or the next one starts. */
    ghost function End(): nat
      reads this
    {
      Min(Off(blockIndex, c.P), |plain|)
    }

    /** Inside a block the cached one is that of the cursor. */
    lemma EndOf()
      requires Consistent()
      ensures Next() <= End() <= |plain| && (Drained() && Valid() ==> End() == |plain|)
      ensures Mod(Next(), c.P) != 0 && !Drained() ==> End() == Min(Off(Div(Next(), c.P) + 1, c.P), |plain|)
    {
      hide Off, Div, Mod, Stores, Chunk;
      OffStep(0, c.P);
      if blockIndex > 0 {
        OffStep(blockIndex - 1, c.P);
        OffDiv(blockIndex, c.P);
      }
      OffDiv(0, c.P);
      if buf.available > 0 {
        ChunkFull(plain, blockIndex - 1, c.P);
        var o := buf.posRead - NONCE_LEN;
        if o < c.P { DivIs(Next(), c.P, blockIndex - 1); }
      }
    }

    /** The position that the reader reports. */
    function Pos(): nat
      reads this, buf
    {
      Off(if blockIndex > 0 then blockIndex - 1 else 0, c.P) +
      if buf.posRead > NONCE_LEN then buf.posRead - NONCE_LEN else 0
    }

    /** The end was read past, which emptied the buffer: the reported position fell back to the last block. */
    predicate Drained()
      reads this, buf
    {
      buf.available == 0 && blockIndex > 0
    }

    constructor (c: Codec, input: File, ghost plain: seq<byte>)
      requires Stores(c, input.node.bytes, plain) && input.pos == 0
      ensures this.c == c && this.input == input && this.plain == plain
      ensures fresh(buf) && fresh(buf.data)
      ensures Valid() && Next() == 0 && End() == 0 && Pos() == 0 && !Drained()
    {
      this.c, this.input, this.plain := c, input, plain;
      buf := new BufMut(c.S());
      blockIndex := 0;
      new;
      OffStep(0, c.P);
      OffStep(0, c.S());
    }

    lemma NextIsPos()
      requires Consistent()
      ensures Next() <= |plain|
      ensures Valid() ==> (Pos() == Next() <==> !Drained())
      ensures Drained() ==> plain != []
    {
      hide Off, Stores, Chunk;
      OffStep(0, c.P);
      if blockIndex > 0 {
        ChunkFull(plain, blockIndex - 1, c.P);
        OffStep(blockIndex - 1, c.P);
      }
    }

    /** Replaces the cached block by the next one, or by nothing at the end. */
    method LoadNext() returns (r: Result<()>)
      requires Consistent()
      modifies this`blockIndex, input, buf, buf.data
      ensures r == Ok(()) && Valid()
      ensures Next() == old(End()) && End() == Min(old(End()) + c.P, |plain|)
      ensures if old(Off(blockIndex, c.P)) < |plain|
              then buf.available > 0 && buf.posRead == NONCE_LEN && blockIndex == old(blockIndex) + 1
              else buf.available == 0 && blockIndex == old(blockIndex)
    {
      hide Off, Stores, Chunk;
      ghost var k, d := blockIndex, input.node.bytes;
      BlockOrNone(c, d, plain, k);
      ChunkAheadClamped(input, k, c.S());
      ChunkEnd(d, k, c.S());
      OffStep(k, c.S());
      OffStep(k, c.P);
      var next := DecryptBlock(c, blockIndex, buf, input);
      match next {
        case Err(e) => return Err(e);
        case Ok(i) => blockIndex := i;
      }
      if buf.available > 0 {
        assert buf.data[NONCE_LEN..buf.available] == buf.Unread();
      }
      return Ok(());
    }

    /**
     * At most `len` bytes from the cursor. A nonempty request is served from the cached block, else from
     * the next one; it is empty only at the end. An empty request drops the cached block with what is unread
     * of it, and loads the next one, or leaves the reader drained at the end.
     */
    method Read(len: nat) returns (r: Result<seq<byte>>)
      requires Consistent()
      modifies this`blockIndex, input, buf, buf.data
      ensures Valid() && r.Ok? && |r.value| <= len
      ensures len > 0 ==>
                && Next() == old(Next()) + |r.value| <= |plain|
                && r.value == plain[old(Next())..Next()]
                && (r.value == [] <==> old(Next()) == |plain|)
                && (Drained() <==> r.value == [] && plain != [])
      ensures var e := old(End());
              var loads := len == 0 || old(Next()) == e;
              var from := if loads then e else old(Next());
              && End() == (if loads then Min(e + c.P, |plain|) else e)
              && from <= Next() == Min(from + len, End()) <= |plain| && r.value == plain[from..Next()]
              && (Drained() <==> loads && e == |plain| && plain != [])
    {
      hide Off, Stores, Chunk, Consistent;
      OffStep(0, c.P);
      OffStep(blockIndex, c.P);
      EndOf();
      var bytes := ReadCached(len);
      if |bytes| != 0 { return Ok(bytes); }
      var l := LoadNext();
      match l {
        case Err(e) => return Err(e);
        case Ok(_) =>
      }
      bytes := ReadCached(len);
      NextIsPos();
      return Ok(bytes);
    }

    /** Serves from the cached block alone. */
    method ReadCached(len: nat) returns (bytes: seq<byte>)
      requires Consistent()
      modifies buf`posRead
      ensures Consistent() && (old(Valid()) ==> Valid())
      ensures Next() == old(Next()) + |bytes| <= |plain|
      ensures bytes == plain[old(Next())..Next()]
      ensures |bytes| == Min(len, End() - old(Next())) && End() == old(End())
    {
      hide Off, Stores, Chunk;
      NextIsPos();
      if buf.available > 0 { UnreadIsPlain(); }
      bytes := buf.Read(len);
    }

    /** What is left in the cache is what comes next in the plaintext. */
    lemma UnreadIsPlain()
      requires Consistent() && buf.available > 0
      ensures Next() + |buf.Unread()| <= |plain|
      ensures buf.Unread() == plain[Next()..Next() + |buf.Unread()|]
      ensures Next() + |buf.Unread()| == End()
    {
      var off := Off(blockIndex - 1, c.P);
      var chunk := Chunk(plain, blockIndex - 1, c.P);
      OffStep(blockIndex - 1, c.P);
      assert buf.Unread() == chunk[buf.posRead - NONCE_LEN..];
    }

    /** The closed form of the plaintext length, which seeks are clamped to. */
    method GetPlaintextLen() returns (len: nat)
      requires Loose()
      ensures len == ReportedEnd()
    {
      hide Off, Div, Mod, Chunk;
      ReportedLenExact(c.P, |plain|);
      StoredDiv(c.P, |plain|);
      ReportedEndFits();
      var stored := |input.node.bytes|;
      if stored == 0 { return 0; }
      return stored - (Div(stored, c.S()) + 1) * OVERHEAD;
    }

    /** The plaintext length, short by one block overhead when the last block is full. */
    ghost function ReportedEnd(): int
      reads this
    {
      Reach(c.P, |plain|)
    }

    lemma ReportedEndFits()
      ensures 0 <= ReportedEnd() <= |plain|
    {
      DivMod(|plain|, c.P);
      if plain != [] && Mod(|plain|, c.P) == 0 {
        assert Div(|plain|, c.P) >= 1;
      }
    }

    /** Where a seek aims. */
    ghost function Target(from: SeekFrom): int
      reads this, buf
    {
      match from
      case Start(p) => p
      case End(d) => ReportedEnd() + d
      case Current(d) => Pos() + d
    }

    /** The position a drained reader reports is one that seeks may aim at. */
    lemma DrainedFits()
      requires Valid() && Drained()
      ensures Pos() <= ReportedEnd() && Loses(Pos())
    {
      hide Off, Div, Mod, Stores, Chunk;
      DrainedBlock();
      CursorBlock();
      DivMod(|plain|, c.P);
      var last, q := blockIndex - 1, Div(|plain|, c.P);
      OffStep(last, c.P);
      if Mod(|plain|, c.P) == 0 {
        if q <= last {
          if q < last { OffMono(q, last, c.P); }
        } else {
          OffMono(last, q, c.P);
        }
      }
    }

    /** The last block was drained from the cache, and `p` lies in it. */
    ghost predicate Loses(p: int)
      reads this, buf
    {
      Drained() && p >= 0 && Div(p, c.P) == blockIndex - 1
    }

    /** The target, clamped to the reported end, lies in another block than the reported position. */
    ghost predicate Elsewhere(from: SeekFrom)
      reads this, buf
    {
      Target(from) >= 0 && Div(Max(Min(Target(from), ReportedEnd()), 0), c.P) != Div(Pos(), c.P)
    }

    /**
     * Moves the cursor to the target, clamped to the reported end. It lands there exactly when the
     * reader was not drained or the target is outside the last block. Into another block it lands whatever
     * was cached.
     */
    method Seek(from: SeekFrom) returns (r: Result<nat>)
      requires Valid() || (Loose() && Elsewhere(from))
      modifies this, input, buf, buf.data
      ensures plain == old(plain)
      ensures Valid()
      ensures var t := old(Target(from));
              t < 0 ==> r == Err(InvalidInput) && unchanged(this, input, buf, buf.data)
      ensures var t := old(Target(from));
              t >= 0 ==>
                var p := Min(t, ReportedEnd());
                && (r == Ok(p) && Next() == p <==> !old(Loses(p)))
                && (old(Loses(p)) ==> r == Ok(old(Pos())) && Next() == |plain| && Drained())
                && (!old(Loses(p)) ==> !Drained())
                && End() == (if p == old(Pos()) then old(End())
                             else if old(Loses(p)) then |plain|
                             else Min(Off(Div(p, c.P) + 1, c.P), |plain|))
    {
      hide Off, Div, Mod, Stores, Chunk;
      ReportedEndFits();
      if Valid() { NextIsPos(); CursorBlock(); } else { LooseBlock(); }
      var len := GetPlaintextLen();
      var t := Aim(from, len);
      if t < 0 { return Err(InvalidInput); }
      var p := Min(t, len);
      if p == Pos() { return Ok(p); }
      if Div(Pos(), c.P) == Div(p, c.P) {
        r := SeekInBlock(p);
      } else {
        r := SeekToBlock(p);
      }
    }

    method Aim(from: SeekFrom, len: nat) returns (t: int)
      requires len == ReportedEnd()
      ensures t == Target(from)
      ensures t == match from case Start(p) => p case End(d) => ReportedEnd() + d case Current(d) => Pos() + d
    {
      match from {
        case Start(p) => t := p;
        case End(d) => t := len + d;
        case Current(d) => t := Pos() + d;
      }
    }

    /** An emptied buffer reports the start of the block before the input cursor. */
    lemma LooseBlock()
      requires buf.Valid()
      ensures Drained() ==> Div(Pos(), c.P) == blockIndex - 1
    {
      hide Off, Div, Mod;
      if blockIndex > 0 { OffDiv(blockIndex - 1, c.P); }
    }

    /** The target lies in the block of the reported position. */
    method SeekInBlock(p: nat) returns (r: Result<nat>)
      requires Valid() && p != Pos() && Div(p, c.P) == Div(Pos(), c.P) && p <= |plain|
      modifies this, input, buf, buf.data
      ensures plain == old(plain)
      ensures Valid()
      ensures Drained() <==> old(Drained())
      ensures !old(Drained()) ==> r == Ok(p) && Next() == p && End() == Min(Off(Div(p, c.P) + 1, c.P), |plain|)
      ensures old(Drained()) ==> r == Ok(old(Pos())) && Next() == End() == |plain|
    {
      hide Off, Div, Mod, Stores, Chunk, Consistent;
      NextIsPos();
      CursorBlock();
      DivMod(p, c.P);
      DivMod(Pos(), c.P);
      if Drained() { DrainedBlock(); }
      var atFullBlockEnd := Mod(Pos(), c.P) == 0 && buf.AvailableRead() == 0;
      if buf.available > 0 && !atFullBlockEnd {
        SeekCached(Mod(p, c.P));
      } else {
        var s := SeekForward(FromCrypto(this), Mod(p, c.P), true);
      }
      NextIsPos();
      EndOf();
      if Drained() { DrainedBlock(); }
      return Ok(Pos());
    }

    /** The target lies in the cached block, at `o`. */
    method SeekCached(o: nat)
      requires Valid() && buf.available > 0 && o < c.P && Off(blockIndex - 1, c.P) + o <= |plain|
      modifies buf`posRead
      ensures Valid() && buf.available > 0 && Next() == Off(blockIndex - 1, c.P) + o
    {
      hide Off, Stores, Chunk;
      ChunkFull(plain, blockIndex - 1, c.P);
      var s := buf.SeekRead(Start(NONCE_LEN + o));
    }

    /** Goes to the start of a block, with nothing cached. */
    method StartAt(nb: nat)
      requires Loose() && Off(nb, c.P) <= |plain| && (nb == 0 || Off(nb - 1, c.P) < |plain|)
      modifies this`blockIndex, input, buf
      ensures Consistent() && plain == old(plain) && buf.available == 0 && blockIndex == nb
      ensures Next() == End() == Off(nb, c.P)
    {
      hide Off, Div, Mod, Chunk;
      BlockShape(c, input.node.bytes, plain, nb);
      input.SeekStart(Off(nb, c.S()));
      buf.Clear();
      blockIndex := nb;
    }

    /** The target lies in another block than the reported position. */
    method SeekToBlock(p: nat) returns (r: Result<nat>)
      requires Loose() && Div(p, c.P) != Div(Pos(), c.P) && p <= |plain|
      requires Mod(p, c.P) == 0 ==> p < |plain| || plain == []
      modifies this, input, buf, buf.data
      ensures plain == old(plain)
      ensures Valid() && !Drained() && r == Ok(p) && Next() == p && End() == Min(Off(Div(p, c.P) + 1, c.P), |plain|)
    {
      hide Off, Div, Mod, Stores, Chunk, Consistent;
      var nb := Div(p, c.P);
      DivMod(p, c.P);
      if nb > 0 { OffStep(nb - 1, c.P); }
      StartAt(nb);
      if Mod(p, c.P) == 0 {
        var l := LoadNext();
        match l {
          case Err(e) => return Err(e);
          case Ok(_) =>
        }
      }
      var s := SeekForward(FromCrypto(this), Mod(p, c.P), true);
      NextIsPos();
      EndOf();
      return Ok(Pos());
    }

    /** Which block the reported position is in. */
    lemma CursorBlock()
      requires Valid()
      ensures buf.Valid()
      ensures buf.available > 0 ==>
                var o := buf.posRead - NONCE_LEN;
                && o <= |Chunk(plain, blockIndex - 1, c.P)| == buf.available - NONCE_LEN
                && Div(Pos(), c.P) == (if o < c.P then blockIndex - 1 else blockIndex)
                && (Mod(Pos(), c.P) == 0 && buf.posRead == buf.available <==> o == c.P)
      ensures buf.available == 0 ==>
                Div(Pos(), c.P) == if blockIndex == 0 then 0 else blockIndex - 1
    {
      hide Off, Div, Mod, Stores, Chunk;
      if buf.available == 0 {
        OffStep(0, c.P);
        DivIs(Pos(), c.P, if blockIndex == 0 then 0 else blockIndex - 1);
      } else {
        var o := buf.posRead - NONCE_LEN;
        ChunkFull(plain, blockIndex - 1, c.P);
        OffStep(blockIndex - 1, c.P);
        DivIs(Pos(), c.P, if o < c.P then blockIndex - 1 else blockIndex);
      }
    }

    lemma DrainedNext()
      requires Valid() && Drained()
      ensures Next() == |plain|
    {
    }

    /** A drained reader reports the start of the last block. */
    lemma DrainedBlock()
      requires Valid() && Drained()
      ensures plain != [] && blockIndex == Div(|plain| - 1, c.P) + 1
      ensures Pos() == Off(Div(|plain| - 1, c.P), c.P)
    {
      hide Off, Div, Stores, Chunk;
      OffStep(blockIndex - 1, c.P);
      DivIs(|plain| - 1, c.P, blockIndex - 1);
    }
  }

  lemma ChunkAheadClamped(f: File, k: nat, size: nat)
    requires f.pos == Min(Off(k, size), |f.node.bytes|)
    ensures f.Ahead(size) == Chunk(f.node.bytes, k, size)
  {
  }

  lemma ChunkEnd(s: seq<byte>, k: nat, size: nat)
    ensures Min(Off(k, size), |s|) + |Chunk(s, k, size)| == Min(Off(k, size) + size, |s|)
  {
  }

  /** What the stream loops read from: a plain file, whose reads may be short, or the decrypting reader. */
  datatype Source = FromFile(file: File) | FromCrypto(reader: RingCryptoRead) {
    ghost function Parts(): set<object> {
      match this
      case FromFile(f) => {f}
      case FromCrypto(r) => {r, r.input, r.buf, r.buf.data}
    }

    ghost predicate Ready()
      reads Parts(), Node()
    {
      FromCrypto? ==> reader.Consistent()
    }

    /** The bytes still to be read. */
    ghost function Rest(): seq<byte>
      reads Parts(), Node()
    {
      match this
      case FromFile(f) => f.node.bytes[Min(f.pos, |f.node.bytes|)..]
      case FromCrypto(r) => r.plain[Min(r.Next(), |r.plain|)..]
    }

    /** Whether the last read met the end, as far as the decrypting reader shows it. */
    ghost predicate Met(end: bool)
      reads Parts(), Node()
    {
      FromCrypto? ==> reader.Valid() && (reader.Drained() <==> end && reader.plain != [])
    }

    /** Nothing that it reads from, or keeps, changed. */
    twostate predicate Same()
      reads Parts(), Node()
    {
      unchanged(Parts()) && unchanged(Node())
    }

    twostate lemma Kept()
      requires Same()
      ensures Ready() == old(Ready()) && Rest() == old(Rest())
    {
    }

    ghost function Node(): Inode {
      if FromFile? then file.node else reader.input.node
    }

    method Read(len: nat) returns (r: Result<seq<byte>>)
      requires Ready()
      modifies Parts()
      ensures Ready() && r.Ok? && |r.value| <= len
      ensures len > 0 ==>
                && old(Rest()) == r.value + Rest()
                && (r.value == [] <==> old(Rest()) == [])
                && Met(r.value == [])
      ensures FromCrypto? ==> reader.plain == old(reader.plain)
    {
      hide Off, Div, Mod, Stores, Chunk, RingCryptoRead.Consistent, RingCryptoRead.Next, RingCryptoRead.Drained;
      match this {
        case FromFile(f) =>
          var buf := new byte[len];
          var n := f.Read(buf, 0);
          return Ok(buf[..n]);
        case FromCrypto(c) =>
          c.NextIsPos();
          r := c.Read(len);
      }
    }
  }

  /**
   * Reads and drops `len` bytes; at the end of the source it either stops or fails. The count tells how
   * far it came.
   */
  method SeekForward(r: Source, len: nat, stopOnEof: bool) returns (res: Result<nat>)
    requires r.Ready()
    modifies r.Parts()
    ensures r.Ready()
    ensures len == 0 ==> res == Ok(0) && unchanged(r.Parts())
    ensures len > 0 ==>
              var moved := Min(len, |old(r.Rest())|);
              && r.Rest() == old(r.Rest())[moved..] && r.Met(moved < len)
              && res == (if moved == len || stopOnEof then Ok(moved) else Err(UnexpectedEof))
    ensures r.FromCrypto? ==> r.reader.plain == old(r.reader.plain)
  {
    hide Source.Ready, Source.Rest, Source.Met;
    if len == 0 { return Ok(0); }
    var pos := 0;
    while true
      invariant r.Ready() && pos < len && pos <= |old(r.Rest())|
      invariant r.Rest() == old(r.Rest())[pos..] && (r.FromCrypto? ==> r.reader.plain == old(r.reader.plain))
      decreases len - pos
    {
      var readLen := if pos + BUF_SIZE > len then len - pos else BUF_SIZE;
      var read := r.Read(readLen);
      match read {
        case Err(e) => return Err(e);
        case Ok(bytes) =>
          assert r.Rest() == old(r.Rest())[pos..][|bytes|..];
          pos := pos + |bytes|;
          if pos == len {
            break;
          } else if |bytes| == 0 {
            if stopOnEof { break; }
            return Err(UnexpectedEof);
          }
      }
    }
    return Ok(pos);
  }
}
