/** The block buffer shared by every stream, and the files underneath them. */
module Buffers {
  import opened Bytes
  import opened Layout

  /** A fixed-size byte buffer with a write cursor, a read cursor and a fill mark. */
  class BufMut {
    const data: array<byte>
    var posWrite: nat
    var posRead: nat
    var available: nat
    var dirty: bool

    ghost predicate Valid()
      reads this
    {
      posWrite <= available && posRead <= available <= data.Length
    }

    /** The bytes filled so far. */
    ghost function Content(): seq<byte>
      requires Valid()
      reads this, data
    {
      data[..available]
    }

    ghost function Unread(): seq<byte>
      requires Valid()
      reads this, data
    {
      data[posRead..available]
    }

    ghost predicate Empty()
      reads this
    {
      posWrite == 0 && posRead == 0 && available == 0 && !dirty
    }

    constructor (size: nat)
      ensures Valid() && Empty() && fresh(data) && data.Length == size
    {
      data := new byte[size](_ => 0);
      posWrite, posRead, available, dirty := 0, 0, 0, false;
    }

    function Remaining(): (n: nat)
      requires Valid()
      reads this
      ensures n + posWrite == data.Length
    {
      data.Length - posWrite
    }

    function AvailableRead(): (n: nat)
      requires Valid()
      reads this
      ensures n == |Unread()|
    {
      available - posRead
    }

    method Clear()
      modifies this
      ensures Valid() && Empty()
    {
      posWrite, posRead, available, dirty := 0, 0, 0, false;
    }

    method SeekRead(from: SeekFrom) returns (r: Result<nat>)
      requires Valid()
      modifies this`posRead
      ensures Valid()
      ensures var t := match from case Start(p) => p case End(d) => data.Length + d case Current(d) => old(posRead) + d;
              if 0 <= t <= available then r == Ok(posRead) && posRead == t
              else r == Err(InvalidInput) && posRead == old(posRead)
    {
      var t: int;
      match from {
        case Start(p) => t := p;
        case End(d) => t := data.Length + d;
        case Current(d) => t := posRead + d;
      }
      if t < 0 || t > available { return Err(InvalidInput); }
      posRead := t;
      return Ok(posRead);
    }

    /** Moving the write cursor past the fill mark raises the mark to it. */
    method SeekWrite(from: SeekFrom) returns (r: Result<nat>)
      requires Valid()
      modifies this`posWrite, this`available
      ensures Valid()
      ensures var t := match from case Start(p) => p case End(d) => data.Length + d case Current(d) => old(posWrite) + d;
              if 0 <= t <= data.Length
              then r == Ok(posWrite) && posWrite == t && available == Max(t, old(available))
              else r == Err(InvalidInput) && posWrite == old(posWrite) && available == old(available)
    {
      var t: int;
      match from {
        case Start(p) => t := p;
        case End(d) => t := data.Length + d;
        case Current(d) => t := posWrite + d;
      }
      if t < 0 || t > data.Length { return Err(InvalidInput); }
      posWrite := t;
      available := Max(posWrite, available);
      return Ok(posWrite);
    }

    /** Moving the fill mark pulls both cursors back under it. */
    method SeekAvailable(from: SeekFrom) returns (r: Result<nat>)
      requires Valid()
      modifies this`posWrite, this`posRead, this`available
      ensures Valid()
      ensures var t := match from case Start(p) => p case End(d) => data.Length + d case Current(d) => old(available) + d;
              if 0 <= t <= data.Length
              then r == Ok(available) && available == t &&
                   posWrite == Min(old(posWrite), t) && posRead == Min(old(posRead), t)
              else r == Err(InvalidInput) && posWrite == old(posWrite) &&
                   posRead == old(posRead) && available == old(available)
    {
      var t: int;
      match from {
        case Start(p) => t := p;
        case End(d) => t := data.Length + d;
        case Current(d) => t := available + d;
      }
      if t < 0 || t > data.Length { return Err(InvalidInput); }
      available := t;
      posWrite := Min(posWrite, available);
      posRead := Min(posRead, available);
      return Ok(available);
    }

    /** Takes as much of `src` as fits after the write cursor. */
    method Write(src: seq<byte>) returns (n: nat)
      requires Valid()
      modifies this`posWrite, this`available, this`dirty, data
      ensures Valid()
      ensures n == Min(data.Length - old(posWrite), |src|)
      ensures posWrite == old(posWrite) + n
      ensures dirty == (old(dirty) || n > 0)
      ensures n == 0 ==> unchanged(this, data)
      ensures Content() == Splice(old(Content()), old(posWrite), src[..n])
    {
      hide Splice;
      ghost var was, p := Content(), posWrite;
      n := Min(Remaining(), |src|);
      if n == 0 {
        assert src[..n] == [];
        SpliceSame(was, p, 0);
        return;
      }
      forall i | posWrite <= i < posWrite + n { data[i] := src[i - posWrite]; }
      posWrite := posWrite + n;
      available := Max(posWrite, available);
      dirty := true;
      forall i: nat | i < available ensures Content()[i] == Splice(was, p, src[..n])[i] {
        SpliceAt(was, p, src[..n], i);
      }
    }

    /** Gives at most `len` unread bytes. */
    method Read(len: nat) returns (bytes: seq<byte>)
      requires Valid()
      modifies this`posRead
      ensures Valid()
      ensures bytes == old(Unread())[..Min(|old(Unread())|, len)]
      ensures posRead == old(posRead) + |bytes|
    {
      var n := Min(AvailableRead(), len);
      bytes := data[posRead..posRead + n];
      posRead := posRead + n;
    }
  }

  /** The bytes of a file on disk, shared by every descriptor opened on it. */
  class Inode {
    var bytes: seq<byte>

    constructor (bytes: seq<byte>)
      ensures this.bytes == bytes
    {
      this.bytes := bytes;
    }
  }

  /** A descriptor: a cursor over an inode. Reads may be short, but are empty only at the end. */
  class File {
    const node: Inode
    var pos: nat

    constructor (node: Inode)
      ensures this.node == node && pos == 0
    {
      this.node, pos := node, 0;
    }

    /** At most `n` bytes from the cursor on. */
    ghost function Ahead(n: nat): (r: seq<byte>)
      reads this, node
      ensures |r| <= n
    {
      node.bytes[Min(pos, |node.bytes|)..Min(pos + n, |node.bytes|)]
    }

    /** Fills some of `dst[off..]`. How much is the system's choice. */
    method Read(dst: array<byte>, off: nat) returns (n: nat)
      requires off <= dst.Length
      modifies this`pos, dst
      ensures n <= dst.Length - off && pos == old(pos) + n
      ensures n == 0 <==> off == dst.Length || old(pos) >= |node.bytes|
      ensures n > 0 ==> pos <= |node.bytes| && dst[off..off + n] == node.bytes[old(pos)..pos]
      ensures dst[..off] == old(dst[..off])
    {
      if off == dst.Length || pos >= |node.bytes| { return 0; }
      var most := Min(dst.Length - off, |node.bytes| - pos);
      n :| 0 < n <= most;
      var src, p := node.bytes, pos;
      forall i | off <= i < off + n { dst[i] := src[p + i - off]; }
      pos := pos + n;
    }

    /** Reads until `dst` is full or a read comes back empty. */
    method ReadFull(dst: array<byte>) returns (len: nat)
      modifies this`pos, dst
      ensures len == |old(Ahead(dst.Length))| && pos == old(pos) + len
      ensures dst[..len] == old(Ahead(dst.Length))
    {
      ghost var s := node.bytes;
      ghost var start := Min(pos, |s|);
      ghost var end := Min(pos + dst.Length, |s|);
      len := 0;
      while true
        invariant start + len <= end && pos == old(pos) + len
        invariant len > 0 ==> start == old(pos)
        invariant dst[..len] == s[start..start + len]
        decreases end - start - len
      {
        var read := Read(dst, len);
        if read == 0 { break; }
        SliceJoin(s, start, start + len, start + len + read);
        SliceJoin(dst[..], 0, len, len + read);
        assert dst[..len + read] == dst[..len] + dst[len..len + read];
        len := len + read;
      }
    }

    /** Writes all of `x` at the cursor, growing the file when needed. */
    method WriteAll(x: seq<byte>)
      modifies this`pos, node
      ensures pos == old(pos) + |x|
      ensures node.bytes == WriteAt(old(node.bytes), old(pos), x)
    {
      node.bytes := WriteAt(node.bytes, pos, x);
      pos := pos + |x|;
    }

    method SeekStart(p: nat)
      modifies this`pos
      ensures pos == p
    {
      pos := p;
    }
  }

  /**
   * Reads the block under the cursor of `input` into `buf` and opens it in place under `blockIndex`.
   * Gives the next block index, or the same one when there was nothing to read.
   */
  method DecryptBlock(c: Codec, blockIndex: nat, buf: BufMut, input: File) returns (r: Result<nat>)
    requires buf.data.Length == c.S()
    modifies buf, buf.data, input`pos
    ensures buf.Valid()
    ensures input.pos == old(input.pos) + |old(input.Ahead(c.S()))|
    ensures var chunk := old(input.Ahead(c.S()));
            var result := if |chunk| < NONCE_LEN then None
                          else c.aead.open(chunk[..NONCE_LEN], blockIndex, chunk[NONCE_LEN..]);
            if chunk == [] || result == Some([]) then r == Ok(blockIndex) && buf.Empty()
            else if |chunk| < NONCE_LEN then r == Err(ShortBlock) && buf.Empty()
            else if result == None then r == Err(OpenFailed) && buf.Empty()
            else
              && r == Ok(blockIndex + 1)
              && buf.posRead == NONCE_LEN && buf.posWrite == 0 && !buf.dirty
              && buf.Unread() == result.value
  {
    buf.Clear();
    ghost var chunk := input.Ahead(c.S());
    var len := input.ReadFull(buf.data);
    if len == 0 { return Ok(blockIndex); }
    if len < NONCE_LEN { return Err(ShortBlock); }
    var result := c.aead.open(buf.data[..NONCE_LEN], blockIndex, buf.data[NONCE_LEN..len]);
    assert buf.data[..NONCE_LEN] == chunk[..NONCE_LEN] && buf.data[NONCE_LEN..len] == chunk[NONCE_LEN..];
    if result == None { return Err(OpenFailed); }
    var plain := result.value;
    forall i | NONCE_LEN <= i < NONCE_LEN + |plain| { buf.data[i] := plain[i - NONCE_LEN]; }
    if |plain| == 0 { return Ok(blockIndex); }
    var _ := buf.SeekAvailable(Start(NONCE_LEN + |plain|));
    var _ := buf.SeekRead(Start(NONCE_LEN));
    assert buf.Unread() == plain;
    return Ok(blockIndex + 1);
  }
}
