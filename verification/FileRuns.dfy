/** Whole runs and scenarios over the streams of one open file. */
module FileRuns {
  import opened Bytes
  import opened Layout
  import opened Buffers
  import opened Directories
  import opened CryptoWriteSeek
  import opened CryptoRead
  import ReaderRuns
  import opened OpenFile
  import opened WriterMachine

  datatype FileOp = WriteOp(offset: nat, data: seq<byte>) | FlushOp

  /** The call does nothing: an empty write, or one past the bound. */
  predicate Refused(maxLen: nat, op: FileOp) {
    op.WriteOp? && (op.data == [] || op.offset > maxLen)
  }

  /** What one call takes of its bytes: no more than up to the end of the block, within the bound. */
  function Piece(P: nat, maxLen: nat, op: FileOp): seq<byte>
    requires P > 0 && op.WriteOp?
  {
    DivMod(op.offset, P);
    var b := Bounded(maxLen, op.offset, op.data);
    b[..Min(|b|, P - Mod(op.offset, P))]
  }

  function Outcome(P: nat, maxLen: nat, op: FileOp): FsResult<nat>
    requires P > 0
  {
    match op
    case FlushOp => Success(0)
    case WriteOp(offset, data) =>
      if data == [] then Success(0)
      else if offset > maxLen then Failure(MaxFilesizeExceeded)
      else Success(|Piece(P, maxLen, op)|)
  }

  /** What one call does to the state of the writer. */
  function Apply(P: nat, maxLen: nat, s: State, op: FileOp): State
    requires P > 0
  {
    if s.Torn? || Refused(maxLen, op) then s else
    match op
    case FlushOp => AfterFlush(s)
    case WriteOp(offset, data) =>
      var s1 := AfterSeek(P, s, offset);
      if s1.State? then AfterCall(P, s1, Bounded(maxLen, offset, data)) else Torn
  }

  function ApplyAll(P: nat, maxLen: nat, s: State, ops: seq<FileOp>): State
    requires P > 0
    decreases |ops|
  {
    if ops == [] then s else ApplyAll(P, maxLen, Apply(P, maxLen, s, ops[0]), ops[1..])
  }

  lemma {:induction false} ApplyAllSnoc(P: nat, maxLen: nat, s: State, ops: seq<FileOp>, i: nat)
    requires P > 0 && i < |ops|
    ensures ApplyAll(P, maxLen, s, ops[..i + 1]) == Apply(P, maxLen, ApplyAll(P, maxLen, s, ops[..i]), ops[i])
    decreases i
  {
    if i == 0 {
      assert ops[..1][1..] == [];
    } else {
      ApplyAllSnoc(P, maxLen, Apply(P, maxLen, s, ops[0]), ops[1..], i - 1);
      assert ops[..i + 1][1..] == ops[1..][..i];
      assert ops[..i][1..] == ops[1..][..i - 1];
    }
  }

  /** A run that is not torn at the end never was. */
  lemma {:induction false} PrefixUntorn(P: nat, maxLen: nat, s: State, ops: seq<FileOp>, i: nat)
    requires P > 0 && i <= |ops| && ApplyAll(P, maxLen, s, ops).State?
    ensures ApplyAll(P, maxLen, s, ops[..i]).State?
    decreases |ops| - i
  {
    if i == |ops| {
      assert ops[..i] == ops;
    } else {
      PrefixUntorn(P, maxLen, s, ops, i + 1);
      ApplyAllSnoc(P, maxLen, s, ops, i);
    }
  }

  /** A file within the bound, open for writing, whose recorded size is its length. */
  ghost predicate Ready(f: FileStreams, h: nat)
    reads *
  {
    f.Valid() && f.Sized() && h != 0 && h in f.WriterHandle() && |f.Plain()| <= f.maxLen
  }

  /**
   * Over every run of writes and flushes on one handle, refused ones included, that leaves no front for
   * another block: each call takes what it should, the writer goes through the states of the machine, hits
   * on unloaded blocks included, and the size stays the content's length, within the bound.
   */
  method RunWrites(f: FileStreams, h: nat, ops: seq<FileOp>) returns (outs: seq<FsResult<nat>>)
    requires Ready(f, h) && ApplyAll(f.c.P, f.maxLen, f.Writer(), ops).State?
    modifies f, f.node, WriterParts(f.writing.value.writer)
    ensures |outs| == |ops| && forall i :: 0 <= i < |ops| ==> outs[i] == Outcome(f.c.P, f.maxLen, ops[i])
    ensures f.Valid() && f.writing.Some? && f.Writer() == ApplyAll(f.c.P, f.maxLen, old(f.Writer()), ops)
    ensures f.GetSize() == |f.Plain()| <= f.maxLen
    ensures AllClear(f.c.P, f.maxLen, old(f.Writer()), ops) ==>
              f.Plain() == Contents(f.c.P, f.maxLen, old(f.Plain()), ops)
  {
    hide Ready, StateOf, ApplyAll, Apply, Outcome, WriterParts, AllClear, Contents, FileStreams.Plain, FileStreams.Valid;
    hide FileStreams.GetSize, FileStreams.WriterHandle, FileStreams.Writer;
    ReadyFacts(f, h);
    ghost var P, maxLen, s := f.c.P, f.maxLen, f.Writer();
    outs := [];
    NoOps(P, maxLen, s, ops[..0]);
    for i := 0 to |ops|
      invariant Ready(f, h) && f.node == old(f.node) && f.writing.Some?
      invariant f.writing.value.writer == old(f.writing).value.writer
      invariant |outs| == i && forall j :: 0 <= j < i ==> outs[j] == Outcome(P, maxLen, ops[j])
      invariant f.Writer() == ApplyAll(P, maxLen, s, ops[..i])
    {
      ApplyAllSnoc(P, maxLen, s, ops, i);
      PrefixUntorn(P, maxLen, s, ops, i + 1);
      var out := StepRun(f, h, ops[i]);
      outs := outs + [out];
    }
    ReadyFacts(f, h);
    assert ops[..|ops|] == ops;
    if AllClear(P, maxLen, s, ops) { AllClearEnd(P, maxLen, s, ops); }
  }

  lemma NoOps(P: nat, maxLen: nat, s: State, ops: seq<FileOp>)
    requires P > 0 && ops == []
    ensures ApplyAll(P, maxLen, s, ops) == s
  {
  }

  lemma ReadyFacts(f: FileStreams, h: nat)
    requires Ready(f, h)
    ensures f.Valid() && f.writing.Some? && f.GetSize() == |f.Plain()| <= f.maxLen
    ensures f.writing.value.writer.inner.c == f.c
    ensures f.Writer().State? && f.Writer().a == f.Plain()
    ensures Formed(f.c.P, f.Writer()) && !Keeping(f.c.P, f.maxLen, f.Writer())
  {
    hide Off, Div, Mod, Stores, Chunk, Splice, RingCryptoWriteSeek.Live, StateOf;
    StateFormed(f.writing.value.writer);
    PlainOf(f.writing.value.writer);
  }

  method StepRun(f: FileStreams, h: nat, op: FileOp) returns (out: FsResult<nat>)
    requires Ready(f, h) && Apply(f.c.P, f.maxLen, f.Writer(), op).State?
    modifies f, f.node, WriterParts(f.writing.value.writer)
    ensures Ready(f, h) && out == Outcome(f.c.P, f.maxLen, op)
    ensures f.node == old(f.node) && f.writing.Some? && f.writing.value.writer == old(f.writing).value.writer
    ensures f.Writer() == Apply(f.c.P, f.maxLen, old(f.Writer()), op)
  {
    hide Stores, Off, Chunk, Div, Mod, WriteAt, ZeroExtend, Splice, AtStart, Synced, FileStreams.Valid;
    hide StateOf, AfterSeek, AfterCall, Clear, FileStreams.Plain, Bounded;
    ReadyFacts(f, h);
    match op {
      case FlushOp =>
        var r := f.Flush(h);
        out := Success(0);
      case WriteOp(offset, data) =>
        out := f.Write(h, offset, data);
    }
  }

  // ---- the content --------------------------------------------------------------------------------

  /** Each taken piece written at its offset. */
  function Contents(P: nat, maxLen: nat, a: seq<byte>, ops: seq<FileOp>): seq<byte>
    requires P > 0
    decreases |ops|
  {
    if ops == [] then a
    else
      var op := ops[0];
      var b := if op.FlushOp? || Refused(maxLen, op) then a else WriteAt(a, op.offset, Piece(P, maxLen, op));
      Contents(P, maxLen, b, ops[1..])
  }

  /** The call puts no zeros over stored bytes, and leaves no front. */
  predicate ClearCall(P: nat, maxLen: nat, s: State, op: FileOp)
    requires P > 0 && s.State?
  {
    op.FlushOp? || Refused(maxLen, op) || (AfterSeek(P, s, op.offset).State? && Clear(s, op.offset))
  }

  predicate AllClear(P: nat, maxLen: nat, s: State, ops: seq<FileOp>)
    requires P > 0
    decreases |ops|
  {
    s.State? &&
    (ops != [] ==> ClearCall(P, maxLen, s, ops[0]) && AllClear(P, maxLen, Apply(P, maxLen, s, ops[0]), ops[1..]))
  }

  predicate Matches(P: nat, maxLen: nat, s: State, a: seq<byte>, ops: seq<FileOp>)
    requires P > 0
  {
    ApplyAll(P, maxLen, s, ops).State? && ApplyAll(P, maxLen, s, ops).a == Contents(P, maxLen, a, ops)
  }

  lemma OneCall(P: nat, maxLen: nat, s: State, op: FileOp)
    requires P > 0
    ensures ApplyAll(P, maxLen, s, [op]) == Apply(P, maxLen, s, op)
    ensures forall a :: Contents(P, maxLen, a, [op]) ==
                   if op.FlushOp? || Refused(maxLen, op) then a else WriteAt(a, op.offset, Piece(P, maxLen, op))
  {
    hide WriteAt, Apply, Piece;
    assert [op][1..] == [];
  }

  /** One call is the positioned write, or nothing, exactly when it is clear. */
  lemma CallMatches(P: nat, maxLen: nat, s: State, op: FileOp)
    requires P > 0 && Formed(P, s) && !Keeping(P, maxLen, s)
    ensures ClearCall(P, maxLen, s, op) <==> Matches(P, maxLen, s, s.a, [op])
    ensures Apply(P, maxLen, s, op).State? ==>
              Formed(P, Apply(P, maxLen, s, op)) && !Keeping(P, maxLen, Apply(P, maxLen, s, op))
    ensures var s1 := Apply(P, maxLen, s, op);
            s1.State? && op.WriteOp? && !Refused(maxLen, op) ==> s1.pos == op.offset + |Piece(P, maxLen, op)|
  {
    hide Off, Div, Mod, WriteAt, AfterSeek, AfterCall, Clear;
    OneCall(P, maxLen, s, op);
    if op.WriteOp? && !Refused(maxLen, op) && AfterSeek(P, s, op.offset).State? {
      CallWithin(P, maxLen, s, op.offset, Bounded(maxLen, op.offset, op.data));
    }
  }

  /**
   * The content of a run is each taken piece written at its offset, after every call, exactly when every call
   * is clear.
   */
  lemma {:induction false} AllClearExactly(P: nat, maxLen: nat, s: State, ops: seq<FileOp>)
    requires P > 0 && Formed(P, s) && !Keeping(P, maxLen, s)
    ensures AllClear(P, maxLen, s, ops) <==> forall i :: 0 <= i <= |ops| ==> Matches(P, maxLen, s, s.a, ops[..i])
    decreases |ops|
  {
    hide ClearCall, Apply, WriteAt, Keeping;
    if ops != [] {
      var op, s' := ops[0], Apply(P, maxLen, s, ops[0]);
      CallMatches(P, maxLen, s, op);
      OneCall(P, maxLen, s, op);
      assert ops[..1] == [op];
      forall i | 0 <= i < |ops| ensures ops[..i + 1][0] == op && ops[..i + 1][1..] == ops[1..][..i] {}
      if ClearCall(P, maxLen, s, op) {
        AllClearExactly(P, maxLen, s', ops[1..]);
        forall i | 0 <= i <= |ops|
          ensures i > 0 ==> (Matches(P, maxLen, s, s.a, ops[..i]) <==> Matches(P, maxLen, s', s'.a, ops[1..][..i - 1])) {
          if i > 0 { assert ops[..i][1..] == ops[1..][..i - 1]; }
        }
        forall i | 0 <= i < |ops|
          ensures Matches(P, maxLen, s', s'.a, ops[1..][..i]) <==> Matches(P, maxLen, s, s.a, ops[..i + 1]) {
          assert ops[..i + 1][1..] == ops[1..][..i];
        }
      }
    }
  }

  lemma AllClearEnd(P: nat, maxLen: nat, s: State, ops: seq<FileOp>)
    requires P > 0 && Formed(P, s) && !Keeping(P, maxLen, s) && AllClear(P, maxLen, s, ops)
    ensures Matches(P, maxLen, s, s.a, ops)
  {
    AllClearExactly(P, maxLen, s, ops);
    assert ops[..|ops|] == ops;
  }

  /** Every write goes on where the one before it ended. */
  predicate InOrder(P: nat, maxLen: nat, pos: nat, ops: seq<FileOp>)
    requires P > 0
    decreases |ops|
  {
    ops != [] ==>
      var op := ops[0];
      if op.FlushOp? || Refused(maxLen, op) then InOrder(P, maxLen, pos, ops[1..])
      else op.offset == pos && InOrder(P, maxLen, pos + |Piece(P, maxLen, op)|, ops[1..])
  }

  /** Writes in order are clear, whatever they start over and wherever the flushes are. */
  lemma {:induction false} InOrderIsClear(P: nat, maxLen: nat, s: State, ops: seq<FileOp>)
    requires P > 0 && Formed(P, s) && !Keeping(P, maxLen, s) && InOrder(P, maxLen, s.pos, ops)
    ensures AllClear(P, maxLen, s, ops)
    decreases |ops|
  {
    hide Off, Div, Mod, WriteAt, AfterCall, Keeping;
    if ops != [] {
      CallMatches(P, maxLen, s, ops[0]);
      OneCall(P, maxLen, s, ops[0]);
      InOrderIsClear(P, maxLen, Apply(P, maxLen, s, ops[0]), ops[1..]);
    }
  }

  /** Without flushes every run is clear, wherever it writes. */
  lemma {:induction false} UnflushedIsClear(P: nat, maxLen: nat, s: State, ops: seq<FileOp>)
    requires P > 0 && Formed(P, s) && !Keeping(P, maxLen, s) && !s.cache.Unloaded? && !s.cache.Front?
    requires forall i :: 0 <= i < |ops| ==> ops[i].WriteOp?
    ensures AllClear(P, maxLen, s, ops)
    decreases |ops|
  {
    hide Off, Div, Mod, WriteAt;
    if ops != [] {
      CallMatches(P, maxLen, s, ops[0]);
      UnflushedIsClear(P, maxLen, Apply(P, maxLen, s, ops[0]), ops[1..]);
    }
  }

  /** After the writer is released, any reader that was open gives the released content. */
  method ReleaseThenRead(f: FileStreams, h: nat, g: nat, offset: nat, len: nat) returns (r: FsResult<seq<byte>>)
    requires f.Valid() && !f.FrontPending() && h != 0 && h in f.WriterHandle() && g in f.readers && g != h && len > 0
    modifies f, f.node, WriterParts(f.writing.value.writer)
    ensures var a := old(f.Plain());
            r == Success(if offset <= Reach(f.c.P, |a|) then a[offset..Min(offset + len, |a|)] else [])
  {
    hide Stores, Off, Chunk, Div, Mod, AtStart, Synced, FileStreams.Valid;
    var x := f.Release(h);
    AtStartFacts(f.readers[g], f.node, f.disk);
    r := f.Read(g, offset, len);
  }

  /** Resizing counts the writer's pending bytes, and the writer's release afterwards does not undo it. */
  method ResizeThenRelease(f: FileStreams, h: nat, n: nat)
    requires f.Valid() && f.Sized() && !f.FrontPending() && h != 0 && h in f.WriterHandle()
    modifies f, f.node, WriterParts(f.writing.value.writer)
    ensures f.Valid() && f.writing.None?
    ensures Decode(f.c, 0, f.node.bytes) == Some(Resize(old(f.Plain()), n))
  {
    hide Stores, Off, Chunk, Div, Mod, Resize, Splice, Decode, AtStart, Synced;
    hide FileStreams.Plain, FileStreams.Sized, FileStreams.GetSize, FileStreams.Separate;
    var x := f.SetLen(n);
    var y := f.Release(h);
    StoresIffDecodes(f.c, f.node.bytes, Resize(old(f.Plain()), n));
  }

  /**
   * After a truncation with readers and the writer open, which leaves the old size recorded, growing the
   * file again fails, unless it is to the old size, which does nothing.
   */
  method GrowAfterTruncate(f: FileStreams, n: nat, m: nat) returns (r: FsResult<()>)
    requires f.Valid() && f.Sized() && f.writing.Some? && f.readers != map[]
    requires n < |f.Plain()| && n < m && !f.FrontPending()
    modifies f, f.node, WriterParts(f.writing.value.writer)
    ensures r == if m == |old(f.Plain())| then Success(()) else Failure(Io)
    ensures f.Valid() && f.Plain() == old(f.Plain())[..n] && f.GetSize() == |old(f.Plain())|
  {
    hide Stores, Off, Chunk, Div, Mod, Splice, AtStart, Synced, FileStreams.Plain, FileStreams.Valid;
    var x := f.SetLen(n);
    r := f.SetLen(m);
  }

  // ---- reading through one handle ---------------------------------------------------------------

  datatype Request = Request(offset: nat, len: nat)

  /** Whether the handle's reader is past the end before the `i`-th request. */
  predicate DrainedAt(P: nat, a: seq<byte>, drained: bool, reqs: seq<Request>, i: nat)
    requires P >= OVERHEAD && i <= |reqs|
  {
    if i == 0 then drained else
    var before := DrainedAt(P, a, drained, reqs, i - 1);
    if reqs[i - 1].len == 0 then before
    else ReaderRuns.DrainedAfter(P, a, before, reqs[i - 1].offset, reqs[i - 1].len)
  }

  /** What the `i`-th request gets. */
  function Answer(P: nat, a: seq<byte>, drained: bool, reqs: seq<Request>, i: nat): seq<byte>
    requires P >= OVERHEAD && i < |reqs|
  {
    ReaderRuns.Given(P, a, DrainedAt(P, a, drained, reqs, i), reqs[i].offset, reqs[i].len)
  }

  /** Every run of reads through one handle over the same content. */
  method RunReads(f: FileStreams, h: nat, reqs: seq<Request>) returns (outs: seq<FsResult<seq<byte>>>)
    requires f.Valid() && h in f.readers && Synced(f.readers[h], f.node, f.disk)
    modifies ReaderParts(f.readers[h])
    ensures f.Valid() && Synced(f.readers[h], f.node, f.disk) && |outs| == |reqs|
    ensures forall i :: 0 <= i < |reqs| ==>
              outs[i] == Success(Answer(f.c.P, f.disk, old(f.readers[h].Drained()), reqs, i))
  {
    hide Stores, Off, Chunk, Div, Mod, Synced, FileStreams.Valid, ReaderRuns.Given, ReaderRuns.DrainedAfter;
    hide Answer, DrainedAt, RingCryptoRead.Drained;
    outs := [];
    ghost var start := f.readers[h].Drained();
    RequestStep(f.c.P, f.disk, start, reqs, 0);
    for i := 0 to |reqs|
      invariant f.Valid() && Synced(f.readers[h], f.node, f.disk) && |outs| == i
      invariant f.readers[h].Drained() == DrainedAt(f.c.P, f.disk, start, reqs, i)
      invariant forall j :: 0 <= j < i ==> outs[j] == Success(Answer(f.c.P, f.disk, start, reqs, j))
    {
      RequestStep(f.c.P, f.disk, start, reqs, i);
      var out := f.Read(h, reqs[i].offset, reqs[i].len);
      outs := outs + [out];
    }
  }

  lemma RequestStep(P: nat, a: seq<byte>, drained: bool, reqs: seq<Request>, i: nat)
    requires P >= OVERHEAD && i <= |reqs|
    ensures DrainedAt(P, a, drained, reqs, 0) == drained
    ensures i < |reqs| ==>
              var before := DrainedAt(P, a, drained, reqs, i);
              && Answer(P, a, drained, reqs, i) ==
                 (if reqs[i].len == 0 then [] else ReaderRuns.Given(P, a, before, reqs[i].offset, reqs[i].len))
              && DrainedAt(P, a, drained, reqs, i + 1) ==
                 (if reqs[i].len == 0 then before else ReaderRuns.DrainedAfter(P, a, before, reqs[i].offset, reqs[i].len))
  {
    hide Div, Mod;
  }

  lemma NothingGiven(P: nat, a: seq<byte>, drained: bool, offset: nat)
    requires P > 0
    ensures ReaderRuns.Given(P, a, drained, offset, 0) == []
  {
  }

  /**
   * As long as every read inside the reported end gave as much as was asked, each read gives the bytes from
   * its offset, as many as there are.
   */
  lemma {:induction false} FullReads(P: nat, a: seq<byte>, reqs: seq<Request>, k: nat)
    requires P >= OVERHEAD && k < |reqs|
    requires forall i :: 0 <= i < k ==> |Answer(P, a, false, reqs, i)| == reqs[i].len
    ensures !DrainedAt(P, a, false, reqs, k)
    ensures reqs[k].offset <= Reach(P, |a|) ==>
              Answer(P, a, false, reqs, k) == a[reqs[k].offset..Min(reqs[k].offset + reqs[k].len, |a|)]
  {
    hide Div, Mod, ReaderRuns.Given, ReaderRuns.DrainedAfter;
    if k > 0 {
      FullReads(P, a, reqs, k - 1);
      assert |Answer(P, a, false, reqs, k - 1)| == reqs[k - 1].len;
      FullRead(P, a, reqs[k - 1].offset, reqs[k - 1].len);
    }
    FullRead(P, a, reqs[k].offset, reqs[k].len);
  }

  lemma FullRead(P: nat, a: seq<byte>, offset: nat, len: nat)
    requires P >= OVERHEAD
    ensures offset <= Reach(P, |a|) ==> ReaderRuns.Given(P, a, false, offset, len) == a[offset..Min(offset + len, |a|)]
    ensures len > 0 && |ReaderRuns.Given(P, a, false, offset, len)| == len ==>
              !ReaderRuns.DrainedAfter(P, a, false, offset, len)
  {
    hide Div, Mod;
  }

  /** The last block read to its end and then again through one handle: the second time nothing comes. */
  method ReadTwice(f: FileStreams, h: nat, offset: nat, len: nat, again: nat, more: nat)
    returns (r1: FsResult<seq<byte>>, r2: FsResult<seq<byte>>)
    requires f.Valid() && h in f.readers && Synced(f.readers[h], f.node, f.disk) && !f.readers[h].Drained()
    requires f.disk != [] && offset <= Reach(f.c.P, |f.disk|) && |f.disk| < offset + len
    requires Div(again, f.c.P) == Div(|f.disk| - 1, f.c.P)
    modifies ReaderParts(f.readers[h])
    ensures r1 == Success(f.disk[offset..]) && r2 == Success([])
  {
    hide Stores, Off, Chunk, Div, Mod, Synced, FileStreams.Valid;
    assert f.disk[offset..|f.disk|] == f.disk[offset..];
    NothingGiven(f.c.P, f.disk, true, again);
    r1 := f.Read(h, offset, len);
    r2 := f.Read(h, again, more);
  }

  /**
   * A handle open for reading and writing: until its writer stores something, its reader goes on giving the
   * content from before the write. A first write inside the content stores nothing.
   */
  method ReadOwnWrite(f: FileStreams, h: nat, offset: nat, data: seq<byte>, at: nat, len: nat)
    returns (put: FsResult<nat>, got: FsResult<seq<byte>>)
    requires f.Valid() && h in f.WriterHandle() && h in f.readers && Synced(f.readers[h], f.node, f.disk)
    requires !f.writing.value.writer.inner.buf.dirty && offset <= |f.Plain()|
    modifies f, f.node, WriterParts(f.writing.value.writer), ReaderParts(f.readers[h])
    ensures f.disk == old(f.disk) == old(f.Plain())
    ensures got == Success(ReaderRuns.Given(f.c.P, old(f.Plain()), old(f.readers[h].Drained()), at, len))
  {
    hide Stores, Off, Chunk, Div, Mod, WriteAt, FileStreams.Valid, FileStreams.Plain, FileStreams.GetSize, ReaderRuns.Given;
    hide RingCryptoRead.Valid, RingCryptoRead.Drained, Synced, Elsewhere, StateOf, AfterSeek, AfterCall, Clear, Bounded;
    hide AtStart, FileStreams.Stays, FileStreams.Sized;
    NothingGiven(f.c.P, f.disk, f.readers[h].Drained(), at);
    CleanIsDisk(f);
    CleanStays(f, h, offset, data);
    put := f.Write(h, offset, data);
    got := f.Read(h, at, len);
  }

  lemma CleanIsDisk(f: FileStreams)
    requires f.Valid() && f.writing.Some? && !f.writing.value.writer.inner.buf.dirty
    ensures f.Plain() == f.disk && !f.FrontPending()
  {
    hide Stores, Off, Chunk;
  }

  lemma CleanStays(f: FileStreams, h: nat, offset: nat, data: seq<byte>)
    requires f.Valid() && f.writing.Some? && !f.writing.value.writer.inner.buf.dirty
    ensures f.Stays(h, offset, data)
  {
    hide Stores, Off, Chunk, WriteAt, ZeroExtend, Mod, Div;
  }

  /**
   * A handle open for reading and writing whose reader is in a later block: once a flush stored what the
   * writer had pending, a full block, a read at the start gives the content with that block in it.
   */
  method ReadOwnFlush(f: FileStreams, h: nat, len: nat) returns (got: FsResult<seq<byte>>)
    requires f.Valid() && h != 0 && h in f.WriterHandle() && h in f.readers && Synced(f.readers[h], f.node, f.disk)
    requires f.Writer().cache == Pending(true) && Div(f.readers[h].Pos(), f.c.P) > 0 && len > 0
    modifies f, f.node, WriterParts(f.writing.value.writer), ReaderParts(f.readers[h])
    ensures f.disk == old(f.Plain()) && got == Success(old(f.Plain())[..Min(len, |old(f.Plain())|)])
  {
    hide Stores, Off, Chunk, Div, Mod, FileStreams.Valid, FileStreams.GetSize, FileStreams.Plain, FileStreams.Sized;
    hide RingCryptoRead.Valid, RingCryptoRead.Drained, AtStart, Place, StateOf, Elsewhere, Synced, PastEnd;
    hide ReaderRuns.Given, ReaderRuns.DrainedAfter;
    SyncedPlace(f.readers[h], f.node, f.disk);
    SameCipher(f, h);
    StoreFull(f, h);
    FromZero(f.readers[h], f.node, f.disk, len);
    got := f.Read(h, 0, len);
  }

  /** A flush of a full pending block leaves nothing pending. */
  method StoreFull(f: FileStreams, h: nat)
    requires f.Valid() && h != 0 && h in f.WriterHandle() && f.Writer().cache == Pending(true)
    modifies f`readers, f`size, f`disk, f.node, WriterParts(f.writing.value.writer)
    ensures f.Valid() && f.disk == old(f.Plain()) && f.writing == old(f.writing)
    ensures f.readers.Keys == old(f.readers.Keys) && f.OwnUntouched(h)
  {
    hide Stores, Off, Chunk, Div, Mod, FileStreams.Valid, FileStreams.GetSize, FileStreams.Plain, FileStreams.Sized;
    hide AtStart, Place, StateOf, FileStreams.OwnUntouched;
    var x := f.Flush(h);
    FlushedIsDisk(f);
  }

  lemma SyncedPlace(r: RingCryptoRead, node: Inode, disk: seq<byte>)
    requires Synced(r, node, disk)
    ensures Place(r) == (node, r.Pos(), true)
  {
    hide Stores;
  }

  lemma SameCipher(f: FileStreams, h: nat)
    requires f.Valid() && h in f.readers
    ensures f.readers[h].c == f.c
  {
    hide Stores;
  }

  /** From a later block the start is elsewhere, and is not lost. */
  lemma FromZero(r: RingCryptoRead, node: Inode, disk: seq<byte>, len: nat)
    requires Place(r).0 == node && Place(r).2 && Div(Place(r).1, r.c.P) > 0
    ensures Elsewhere(r, node, disk, 0)
    ensures ReaderRuns.Given(r.c.P, disk, PastEnd(r, node, disk), 0, len) == disk[..Min(len, |disk|)]
  {
    hide Stores, Off, Chunk;
    ReaderRuns.ReachFits(r.c.P, |disk|);
    if PastEnd(r, node, disk) { ElsewhereIsFree(r, 0, len); }
  }

  lemma FlushedIsDisk(f: FileStreams)
    requires f.Valid() && f.writing.Some? && (f.Writer().cache.Nothing? || f.Writer().cache.Unloaded?)
    ensures f.Plain() == f.disk
  {
    hide Stores, Off, Chunk;
  }
}
