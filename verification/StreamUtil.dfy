/** The copying loops, and whole runs of the sequential streams. */
module StreamUtil {
  import opened Bytes
  import opened Layout
  import opened Buffers
  import opened CryptoWrite
  import opened CryptoRead

  /** Writing the next `n` bytes of a source after its first `pos`. */
  lemma CopiedMore(a: seq<byte>, p: nat, all: seq<byte>, pos: nat, n: nat)
    requires pos + n <= |all|
    ensures all[pos..][n..] == all[pos + n..]
    ensures pos == 0 ==> all[pos..][..n] == all[..pos + n]
    ensures WriteAt(WriteAt(a, p, all[..pos]), p + pos, all[pos..][..n]) == WriteAt(a, p, all[..pos + n])
  {
    WriteMore(a, p, all, pos, n);
  }

  /** Nothing that the source shows is written by the sink. */
  ghost predicate Disjoint(r: Source, w: Sink) {
    && r.Parts() !! w.Parts()
    && r.Node() !in w.Parts()
  }

  /** One turn of the loop below: at most `n` bytes, none only at the end. */
  method CopyPiece(r: Source, w: Sink, n: nat) returns (res: Result<nat>)
    requires r.Ready() && w.Ready() && !w.Blocked() && Disjoint(r, w) && n > 0
    modifies r.Parts(), w.Parts()
    ensures r.Ready() && w.Ready() && !w.Blocked()
    ensures res.Ok? && res.value <= n && res.value <= |old(r.Rest())|
    ensures r.Rest() == old(r.Rest())[res.value..] && (res.value == 0 <==> old(r.Rest()) == [])
    ensures w.Pos() == old(w.Pos()) + res.value && (old(w.Last()) ==> w.Last())
    ensures if res.value == 0 then w.Same()
            else w.Written() && w.Content() == WriteAt(old(w.Content()), old(w.Pos()), old(r.Rest())[..res.value])
  {
    hide WriteAt, Source.Ready, Source.Rest, Source.Met;
    hide Sink.Ready, Sink.Blocked, Sink.Written, Sink.Content, Sink.Pos, Sink.Last;
    ghost var all := r.Rest();
    var read := r.Read(n);
    w.Kept();
    label Read:
    match read {
      case Err(e) => return Err(e);
      case Ok(bytes) =>
        assert bytes == all[..|bytes|] && r.Rest() == all[|bytes|..];
        var put := w.WriteAll(bytes);
        r.Kept@Read();
        match put {
          case Err(e) => return Err(e);
          case Ok(_) => return Ok(|bytes|);
        }
    }
  }

  /** Moves `len` bytes from `r` to `w`; at the end of `r` it either stops or fails. */
  method Copy(r: Source, w: Sink, len: nat, stopOnEof: bool) returns (res: Result<nat>)
    requires r.Ready() && w.Ready() && !w.Blocked() && Disjoint(r, w)
    modifies r.Parts(), w.Parts()
    ensures r.Ready() && w.Ready() && !w.Blocked()
    ensures var moved := Min(len, |old(r.Rest())|);
            && r.Rest() == old(r.Rest())[moved..]
            && res == (if moved == len || stopOnEof then Ok(moved) else Err(UnexpectedEof))
            && w.Pos() == old(w.Pos()) + moved && (old(w.Last()) ==> w.Last())
            && (if moved == 0 then w.Same()
                else w.Written() && w.Content() == WriteAt(old(w.Content()), old(w.Pos()), old(r.Rest())[..moved]))
  {
    hide WriteAt, Disjoint, Source.Ready, Source.Rest, Source.Met;
    hide Sink.Ready, Sink.Blocked, Sink.Written, Sink.Content, Sink.Pos, Sink.Last;
    ghost var all := r.Rest();
    if len == 0 { return Ok(0); }
    var pos := 0;
    while true
      invariant r.Ready() && w.Ready() && !w.Blocked()
      invariant pos < len && pos <= |all| && r.Rest() == all[pos..]
      invariant w.Pos() == old(w.Pos()) + pos && (old(w.Last()) ==> w.Last())
      invariant if pos == 0 then w.Same()
                else w.Written() && w.Content() == WriteAt(old(w.Content()), old(w.Pos()), all[..pos])
      decreases len - pos
    {
      var piece := CopyPiece(r, w, Min(BUF_SIZE, len - pos));
      match piece {
        case Err(e) => return Err(e);
        case Ok(read) =>
          CopiedMore(old(w.Content()), old(w.Pos()), all, pos, read);
          pos := pos + read;
          if pos == len {
            break;
          } else if read == 0 {
            if stopOnEof { break; }
            return Err(UnexpectedEof);
          }
      }
    }
    return Ok(pos);
  }

  /** Fills a request of `len` bytes, or stops at the end. */
  method ReadUpTo(r: Source, len: nat) returns (res: Result<seq<byte>>)
    requires r.Ready()
    modifies r.Parts()
    ensures r.Ready() && res.Ok? && |res.value| <= len
    ensures len > 0 ==>
              && |res.value| == Min(len, |old(r.Rest())|)
              && old(r.Rest()) == res.value + r.Rest()
              && r.Met(|res.value| < len)
    ensures r.FromCrypto? ==> r.reader.plain == old(r.reader.plain)
  {
    hide Source.Ready, Source.Rest, Source.Met;
    ghost var all := r.Rest();
    var bytes: seq<byte> := [];
    while true
      invariant r.Ready() && |bytes| <= len && (r.FromCrypto? ==> r.reader.plain == old(r.reader.plain))
      invariant len > 0 ==> |bytes| < len && all == bytes + r.Rest()
      decreases len - |bytes|
    {
      var read := r.Read(len - |bytes|);
      match read {
        case Err(e) => return Err(e);
        case Ok(more) =>
          if |more| == 0 { break; }
          bytes := bytes + more;
          if |bytes| == len { break; }
      }
    }
    return Ok(bytes);
  }

  // ---- whole runs -------------------------------------------------------------------------

  datatype WriterOp = Put(data: seq<byte>) | FlushOp

  function Data(ops: seq<WriterOp>): seq<byte> {
    if ops == [] then [] else (if ops[0].Put? then ops[0].data else []) + Data(ops[1..])
  }

  lemma {:induction false} DataSnoc(ops: seq<WriterOp>, i: nat)
    requires i < |ops|
    ensures Data(ops[..i + 1]) == Data(ops[..i]) + if ops[i].Put? then ops[i].data else []
    decreases i
  {
    if i == 0 {
      assert ops[..1][1..] == [];
    } else {
      DataSnoc(ops[1..], i - 1);
      assert ops[..i + 1][1..] == ops[1..][..i] && ops[..i][1..] == ops[1..][..i - 1];
    }
  }

  function Concat(outs: seq<seq<byte>>): seq<byte> {
    if outs == [] then [] else Concat(outs[..|outs| - 1]) + outs[|outs| - 1]
  }

  /** Writing any chunks with flushes anywhere stores exactly their concatenation. */
  method Encrypt(c: Codec, ops: seq<WriterOp>) returns (d: seq<byte>)
    ensures Decode(c, 0, d) == Some(Data(ops))
  {
    hide Off, Stores, Chunk, Splice, Decode;
    EmptyStored(c);
    var node := new Inode([]);
    var file := new File(node);
    var w := new RingCryptoWrite(c, file, []);
    for i := 0 to |ops|
      invariant w.c == c && w.out == file && file.node == node && fresh(w.buf) && fresh(w.buf.data)
      invariant w.Valid() && !w.finished && w.AtEnd()
      invariant w.Plain() == Data(ops[..i]) && w.Pos() == |Data(ops[..i])|
    {
      DataSnoc(ops, i);
      match ops[i] {
        case Put(x) =>
          w.EndNotOverrun(|x|);
          var _ := w.WriteAll(x);
          Appended(Data(ops[..i]), x);
        case FlushOp =>
          var _ := w.Flush();
      }
    }
    assert ops[..|ops|] == ops;
    var _ := w.Finish();
    StoresIffDecodes(c, node.bytes, Data(ops));
    return node.bytes;
  }

  lemma Appended(a: seq<byte>, x: seq<byte>)
    ensures WriteAt(a, |a|, x) == a + x
  {
  }

  /** What a sequence of nonempty reads gives, for every choice of sizes. */
  ghost predicate ReadsBack(a: seq<byte>, sizes: seq<nat>, outs: seq<seq<byte>>) {
    && |outs| == |sizes|
    && Concat(outs) <= a
    && forall i {:trigger outs[i]} :: 0 <= i < |outs| ==>
         && |outs[i]| <= sizes[i]
         && (outs[i] == [] <==> Concat(outs[..i]) == a)
  }

  lemma OneMoreRead(a: seq<byte>, sizes: seq<nat>, outs: seq<seq<byte>>, lo: nat, hi: nat, size: nat)
    requires ReadsBack(a, sizes, outs) && lo <= hi <= |a| && Concat(outs) == a[..lo]
    requires hi - lo <= size && (lo == hi <==> lo == |a|)
    ensures ReadsBack(a, sizes + [size], outs + [a[lo..hi]]) && Concat(outs + [a[lo..hi]]) == a[..hi]
  {
    var n, more := |outs|, outs + [a[lo..hi]];
    assert more[..n] == outs;
    assert a[..lo] + a[lo..hi] == a[..hi];
    forall j | 0 <= j < |more|
      ensures |more[j]| <= (sizes + [size])[j] && (more[j] == [] <==> Concat(more[..j]) == a)
    {
      if j < n { assert more[..j] == outs[..j]; }
    }
  }

  /** Reading a stored stream gives its bytes in order, each read something, until all were given. */
  method Decrypt(c: Codec, d: seq<byte>, sizes: seq<nat>) returns (outs: seq<seq<byte>>)
    requires Decode(c, 0, d).Some?
    requires forall i :: 0 <= i < |sizes| ==> sizes[i] > 0
    ensures ReadsBack(Decode(c, 0, d).value, sizes, outs)
  {
    hide Off, Stores, Chunk, Decode;
    ghost var a := Decode(c, 0, d).value;
    StoresIffDecodes(c, d, a);
    var node := new Inode(d);
    var file := new File(node);
    var r := new RingCryptoRead(c, file, a);
    outs := [];
    for i := 0 to |sizes|
      invariant r.input == file && file.node == node && fresh(r.buf) && fresh(r.buf.data)
      invariant r.Consistent() && r.plain == a && node.bytes == d
      invariant r.Next() <= |a| && Concat(outs) == a[..r.Next()]
      invariant ReadsBack(a, sizes[..i], outs)
    {
      ghost var before, next := outs, r.Next();
      var read := r.Read(sizes[i]);
      var bytes := match read case Ok(x) => x case Err(_) => [];
      outs := outs + [bytes];
      assert sizes[..i + 1] == sizes[..i] + [sizes[i]];
      OneMoreRead(a, sizes[..i], before, next, r.Next(), sizes[i]);
    }
    assert sizes[..|sizes|] == sizes;
  }

  /** The sequential round trip: any chunking in, any nonempty read sizes out. */
  method RoundTrip(c: Codec, ops: seq<WriterOp>, sizes: seq<nat>) returns (outs: seq<seq<byte>>)
    requires forall i :: 0 <= i < |sizes| ==> sizes[i] > 0
    ensures ReadsBack(Data(ops), sizes, outs)
  {
    hide Decode;
    var d := Encrypt(c, ops);
    outs := Decrypt(c, d, sizes);
  }

  /** Whatever was written, exchanging two full blocks of what is stored leaves nothing that decodes. */
  method EncryptThenExchange(c: Codec, ops: seq<WriterOp>, i: nat, j: nat) returns (d: seq<byte>)
    requires i < j && Off(j, c.P) + c.P <= |Data(ops)| && c.aead.Binds(i, j)
    ensures Off(i, c.S()) + c.S() <= Off(j, c.S()) && Off(j, c.S()) + c.S() <= |d|
    ensures Decode(c, 0, d) == Some(Data(ops)) && Decode(c, 0, Exchanged(d, i, j, c.S())) == None
  {
    hide Off, Stores, Chunk, Splice, Decode;
    d := Encrypt(c, ops);
    StoresIffDecodes(c, d, Data(ops));
    ExchangeShows(c, d, Data(ops), i, j);
  }
}
