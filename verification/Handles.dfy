/** The tables of open handles. */
module Handles {
  import opened Bytes
  import opened Directories

  /** The handles that an inode's set has and that lead nowhere. */
  function LostOf(handles: map<nat, nat>, sets: map<nat, set<nat>>): set<(nat, nat)> {
    set i, h | i in sets && h in sets[i] && h !in handles :: (i, h)
  }

  predicate Has(sets: map<nat, set<nat>>, i: nat, h: nat) {
    i in sets && h in sets[i]
  }

  /** Taking an open handle out of both tables takes nothing else out and loses none. */
  lemma LostKept(was: map<nat, nat>, sets: map<nat, set<nat>>, h: nat, now: map<nat, set<nat>>)
    requires h in was && was[h] in sets && (forall i :: i in sets && h in sets[i] ==> i == was[h])
    requires now == (if sets[was[h]] - {h} == {} then sets - {was[h]} else sets[was[h] := sets[was[h]] - {h}])
    ensures LostOf(was - {h}, now) == LostOf(was, sets)
    ensures forall i, g :: Has(now, i, g) <==> Has(sets, i, g) && g != h
  {
    forall i, g ensures Has(now, i, g) <==> Has(sets, i, g) && g != h {
      if i == was[h] { assert g in sets[i] - {h} <==> g in sets[i] && g != h; }
    }
    forall i, g ensures (i, g) in LostOf(was - {h}, now) <==> (i, g) in LostOf(was, sets) {
      if i == was[h] { assert g in sets[i] - {h} <==> g in sets[i] && g != h; }
    }
  }

  class HandleTables {
    var readHandles: map<nat, nat>          // handle to inode
    var writeHandles: map<nat, nat>
    var openedForRead: map<nat, set<nat>>   // inode to handles
    var openedForWrite: map<nat, nat>
    var currentHandle: nat

    /** The read tables are each other's inverse, but for lost handles, and keep no empty sets. */
    ghost predicate ReadsInverse()
      reads this`readHandles, this`openedForRead
    {
      && (forall h :: h in readHandles ==>
            readHandles[h] in openedForRead && h in openedForRead[readHandles[h]])
      && (forall i :: i in openedForRead ==> openedForRead[i] != {})
      && (forall i, h :: i in openedForRead && h in openedForRead[i] && h in readHandles ==> readHandles[h] == i)
    }

    predicate InSet(i: nat, h: nat)
      reads this`openedForRead
    {
      Has(openedForRead, i, h)
    }

    /** The handles that an inode's set still has although they are open no more. */
    ghost function Lost(): set<(nat, nat)>
      reads this`readHandles, this`openedForRead
    {
      LostOf(readHandles, openedForRead)
    }

    /** So are the write tables, with at most one writer an inode. */
    ghost predicate WritesInverse()
      reads this`writeHandles, this`openedForWrite
    {
      && (forall h :: h in writeHandles ==>
            writeHandles[h] in openedForWrite && openedForWrite[writeHandles[h]] == h)
      && (forall i :: i in openedForWrite ==> openedForWrite[i] in writeHandles && writeHandles[openedForWrite[i]] == i)
    }

    /** Handles were all issued, and none is zero. */
    ghost predicate Issued()
      reads this
    {
      && currentHandle > 0
      && (forall h :: h in readHandles || h in writeHandles ==> 0 < h < currentHandle)
      && (forall i, h :: i in openedForRead && h in openedForRead[i] ==> 0 < h < currentHandle)
    }

    ghost predicate Valid()
      reads this
    {
      ReadsInverse() && WritesInverse() && Issued()
    }

    constructor ()
      ensures Valid() && ViewOf(this) == Tables(map[], map[], {}, 1)
    {
      readHandles, writeHandles, openedForRead, openedForWrite, currentHandle := map[], map[], map[], map[], 1;
    }

    method NextHandle() returns (h: nat)
      modifies this`currentHandle
      ensures h == old(currentHandle) && currentHandle == h + 1
    {
      h := currentHandle;
      currentHandle := currentHandle + 1;
    }

    /**
     * Opens an inode. `writeFails` is the outcome of preparing the writer; if it was to read as well, the new
     * handle is then left in the inode's set of readers. An inode that already has a writer keeps the new read
     * handle although none is returned.
     */
    method Open(ino: nat, isDir: bool, read: bool, write: bool, writeFails: bool) returns (r: FsResult<nat>)
      requires Valid()
      modifies this
      ensures Valid()
      ensures r == match old(OpenError(ViewOf(this), ino, isDir, read, write, writeFails))
                   case Some(e) => Failure(e)
                   case None => Success(old(currentHandle))
      ensures ViewOf(this) == AfterOpen(old(ViewOf(this)), ino, isDir, read, write, writeFails)
      ensures r == Failure(FsError.InvalidInput) <==> !read && !write
      ensures r == Failure(InvalidInodeType) <==> (read || write) && isDir
      ensures r == Failure(AlreadyOpenForWrite) <==> write && !isDir && ino in old(openedForWrite)
      ensures r == Failure(Io) <==> write && !isDir && ino !in old(openedForWrite) && writeFails
      ensures r.Success? <==> (read || write) && !isDir && (write ==> ino !in old(openedForWrite) && !writeFails)
      ensures r.Success? ==> r.value > 0 && r.value !in old(readHandles) && r.value !in old(writeHandles)
      ensures r.Success? ==>
                && readHandles == (if read then old(readHandles)[r.value := ino] else old(readHandles))
                && writeHandles == (if write then old(writeHandles)[r.value := ino] else old(writeHandles))
                && (write ==> ino in openedForWrite && openedForWrite[ino] == r.value)
      ensures r.Failure? ==> writeHandles == old(writeHandles) && openedForWrite == old(openedForWrite)
    {
      hide WritesInverse, ReadsInverse, HandleTables.Lost, HandleTables.InSet, LostOf;
      WriterKnown(ino);
      if !read && !write { return Failure(FsError.InvalidInput); }
      if isDir { return Failure(InvalidInodeType); }
      var handle: Option<nat> := None;
      if read {
        var h := NextHandle();
        handle := Some(h);
        AddReader(h, ino);
      }
      if write {
        if ino in openedForWrite { return Failure(AlreadyOpenForWrite); }
        if handle.None? {
          var h := NextHandle();
          handle := Some(h);
        }
        if writeFails {
          if read { HalfRemove(handle.value, ino); }
          return Failure(Io);
        }
        AddWriter(handle.value, ino);
      }
      return Success(handle.value);
    }

    lemma WriterKnown(ino: nat)
      requires Valid()
      ensures ino in openedForWrite <==> ino in writeHandles.Values
    {
      if ino in openedForWrite { assert writeHandles[openedForWrite[ino]] == ino; }
    }

    method AddReader(h: nat, ino: nat)
      requires ReadsInverse() && h > 0 && h !in readHandles
      requires forall i, g :: i in openedForRead && g in openedForRead[i] ==> 0 < g < h
      requires forall g :: g in readHandles ==> 0 < g < h
      modifies this`readHandles, this`openedForRead
      ensures ReadsInverse() && Lost() == old(Lost())
      ensures readHandles == old(readHandles)[h := ino]
      ensures ino in openedForRead && h in openedForRead[ino]
      ensures forall i, g :: i in openedForRead && g in openedForRead[i] ==> 0 < g <= h
    {
      readHandles := readHandles[h := ino];
      var handles := if ino in openedForRead then openedForRead[ino] else {};
      openedForRead := openedForRead[ino := handles + {h}];
    }

    /** The failure path takes the handle out of one of the two read tables only. */
    method HalfRemove(h: nat, ino: nat)
      requires ReadsInverse() && h in readHandles && readHandles[h] == ino
      modifies this`readHandles
      ensures ReadsInverse() && readHandles == old(readHandles) - {h} && Lost() == old(Lost()) + {(ino, h)}
    {
      readHandles := readHandles - {h};
    }

    method AddWriter(h: nat, ino: nat)
      requires WritesInverse() && h !in writeHandles && ino !in openedForWrite
      modifies this`writeHandles, this`openedForWrite
      ensures WritesInverse()
      ensures writeHandles == old(writeHandles)[h := ino] && openedForWrite == old(openedForWrite)[ino := h]
    {
      writeHandles := writeHandles[h := ino];
      openedForWrite := openedForWrite[ino := h];
    }

    method RemoveReader(h: nat)
      requires ReadsInverse() && h in readHandles
      modifies this`readHandles, this`openedForRead
      ensures ReadsInverse() && readHandles == old(readHandles) - {h} && Lost() == old(Lost())
      ensures forall i, g :: InSet(i, g) <==> old(InSet(i, g)) && g != h
      ensures forall i :: i in openedForRead ==> i in old(openedForRead) && openedForRead[i] <= old(openedForRead)[i]
    {
      var ino := readHandles[h];
      readHandles := readHandles - {h};
      openedForRead := openedForRead[ino := openedForRead[ino] - {h}];
      if openedForRead[ino] == {} {
        openedForRead := openedForRead - {ino};
      }
      LostKept(old(readHandles), old(openedForRead), h, openedForRead);
    }

    method RemoveWriter(h: nat)
      requires WritesInverse() && h in writeHandles
      modifies this`writeHandles, this`openedForWrite
      ensures WritesInverse() && writeHandles == old(writeHandles) - {h}
      ensures openedForWrite == old(openedForWrite) - {old(writeHandles)[h]}
      ensures forall i :: i in openedForWrite <==> i in old(openedForWrite) && old(openedForWrite)[i] != h
    {
      var ino := writeHandles[h];
      writeHandles := writeHandles - {h};
      openedForWrite := openedForWrite - {ino};
    }

    lemma NoWriter(h: nat)
      requires WritesInverse() && h !in writeHandles
      ensures forall i :: i in openedForWrite ==> openedForWrite[i] != h
    {
    }

    /**
     * Releases a handle from every table it is in; zero is never issued and always accepted. The lookups
     * of the inode's handle set cannot miss.
     */
    method Release(handle: nat) returns (r: FsResult<()>)
      requires Valid()
      modifies this
      ensures Valid() && ViewOf(this) == AfterRelease(old(ViewOf(this)), handle)
      ensures r == if handle == 0 || handle in old(readHandles) || handle in old(writeHandles)
                   then Success(()) else Failure(InvalidFileHandle)
      ensures handle == 0 ==> unchanged(this)
      ensures handle != 0 ==> handle !in readHandles && handle !in writeHandles
      ensures forall h :: h != handle ==>
                && (h in readHandles <==> h in old(readHandles)) && (h in writeHandles <==> h in old(writeHandles))
                && (h in readHandles ==> readHandles[h] == old(readHandles)[h])
                && (h in writeHandles ==> writeHandles[h] == old(writeHandles)[h])
      ensures forall i, h :: h != handle ==> (InSet(i, h) <==> old(InSet(i, h)))
      ensures old(handle in readHandles) ==> forall i :: !InSet(i, handle)
      ensures handle != 0 ==> forall i ::
                && (i in openedForWrite <==> i in old(openedForWrite) && old(openedForWrite)[i] != handle)
                && (i in openedForWrite ==> openedForWrite[i] == old(openedForWrite)[i])
    {
      hide WritesInverse, ReadsInverse, HandleTables.Lost, HandleTables.InSet;
      if handle !in writeHandles { NoWriter(handle); }
      if handle == 0 { return Success(()); }
      var validFh := false;
      if handle in readHandles {
        RemoveReader(handle);
        validFh := true;
      }
      if handle in writeHandles {
        RemoveWriter(handle);
        validFh := true;
      }
      if !validFh { return Failure(InvalidFileHandle); }
      return Success(());
    }

    /**
     * The lookups made when a file's readers are to be rebuilt, all but one: each handle of the inode's set
     * is looked up, and has to be there.
     */
    method LookupReaders(ino: nat, skip: nat) returns (found: bool)
      requires Valid()
      ensures found <==> forall h :: (ino, h) in Lost() ==> h == skip
    {
      if ino !in openedForRead { return true; }
      var rest := openedForRead[ino];
      while rest != {}
        invariant rest <= openedForRead[ino]
        invariant forall h :: (ino, h) in Lost() && h !in rest ==> h == skip
        decreases rest
      {
        var h :| h in rest;
        if h != skip && h !in readHandles {
          assert (ino, h) in Lost();
          return false;
        }
        rest := rest - {h};
      }
      return true;
    }
  }

  /** What the tables say: which handle reads and writes which inode, what was lost, and the next handle. */
  datatype Tables = Tables(readers: map<nat, nat>, writers: map<nat, nat>, lost: set<(nat, nat)>, next: nat)

  ghost function ViewOf(t: HandleTables): Tables
    reads t
  {
    Tables(t.readHandles, t.writeHandles, t.Lost(), t.currentHandle)
  }

  function OpenError(v: Tables, ino: nat, isDir: bool, read: bool, write: bool, writeFails: bool): Option<FsError> {
    if !read && !write then Some(FsError.InvalidInput)
    else if isDir then Some(InvalidInodeType)
    else if write && ino in v.writers.Values then Some(AlreadyOpenForWrite)
    else if write && writeFails then Some(Io)
    else None
  }

  function AfterOpen(v: Tables, ino: nat, isDir: bool, read: bool, write: bool, writeFails: bool): Tables {
    match OpenError(v, ino, isDir, read, write, writeFails)
    case None =>
      Tables(if read then v.readers[v.next := ino] else v.readers,
             if write then v.writers[v.next := ino] else v.writers,
             v.lost, v.next + 1)
    case Some(AlreadyOpenForWrite) => if read then v.(readers := v.readers[v.next := ino], next := v.next + 1) else v
    case Some(Io) => v.(lost := if read then v.lost + {(ino, v.next)} else v.lost, next := v.next + 1)
    case Some(_) => v
  }

  function AfterRelease(v: Tables, h: nat): Tables {
    if h == 0 then v else v.(readers := v.readers - {h}, writers := v.writers - {h})
  }

  datatype HandleOp =
    | OpenOp(ino: nat, isDir: bool, read: bool, write: bool, writeFails: bool)
    | ReleaseOp(handle: nat)

  datatype Reply = Opened(got: FsResult<nat>) | Released(done: FsResult<()>)

  function StepTables(v: Tables, op: HandleOp): Tables {
    match op
    case OpenOp(i, d, r, w, f) => AfterOpen(v, i, d, r, w, f)
    case ReleaseOp(h) => AfterRelease(v, h)
  }

  function ReplyTo(v: Tables, op: HandleOp): Reply {
    match op
    case OpenOp(i, d, r, w, f) =>
      Opened(match OpenError(v, i, d, r, w, f) case Some(e) => Failure(e) case None => Success(v.next))
    case ReleaseOp(h) =>
      Released(if h == 0 || h in v.readers || h in v.writers then Success(()) else Failure(InvalidFileHandle))
  }

  function StepAll(v: Tables, ops: seq<HandleOp>): Tables
    decreases |ops|
  {
    if ops == [] then v else StepAll(StepTables(v, ops[0]), ops[1..])
  }

  lemma {:induction false} StepAllSnoc(v: Tables, ops: seq<HandleOp>, i: nat)
    requires i < |ops|
    ensures StepAll(v, ops[..i + 1]) == StepTables(StepAll(v, ops[..i]), ops[i])
    decreases i
  {
    if i == 0 {
      assert ops[..1][1..] == [];
    } else {
      StepAllSnoc(StepTables(v, ops[0]), ops[1..], i - 1);
      assert ops[..i + 1][1..] == ops[1..][..i];
      assert ops[..i][1..] == ops[1..][..i - 1];
    }
  }

  /** Every run of opens and releases, failures included, is the fold of its steps. */
  method Run(tables: HandleTables, ops: seq<HandleOp>) returns (replies: seq<Reply>)
    requires tables.Valid()
    modifies tables
    ensures tables.Valid() && ViewOf(tables) == StepAll(old(ViewOf(tables)), ops)
    ensures |replies| == |ops|
    ensures forall i :: 0 <= i < |ops| ==> replies[i] == ReplyTo(StepAll(old(ViewOf(tables)), ops[..i]), ops[i])
  {
    hide HandleTables.Valid, AfterOpen, AfterRelease, OpenError, ViewOf;
    ghost var v := ViewOf(tables);
    replies := [];
    for k := 0 to |ops|
      invariant tables.Valid() && ViewOf(tables) == StepAll(v, ops[..k])
      invariant |replies| == k && forall i :: 0 <= i < k ==> replies[i] == ReplyTo(StepAll(v, ops[..i]), ops[i])
    {
      StepAllSnoc(v, ops, k);
      var reply := StepRun(tables, ops[k]);
      replies := replies + [reply];
    }
    assert ops[..|ops|] == ops;
  }

  method StepRun(tables: HandleTables, op: HandleOp) returns (reply: Reply)
    requires tables.Valid()
    modifies tables
    ensures tables.Valid() && ViewOf(tables) == StepTables(old(ViewOf(tables)), op)
    ensures reply == ReplyTo(old(ViewOf(tables)), op)
  {
    hide HandleTables.Valid, HandleTables.Lost;
    match op {
      case OpenOp(i, d, r, w, f) =>
        var x := tables.Open(i, d, r, w, f);
        reply := Opened(x);
      case ReleaseOp(h) =>
        var x := tables.Release(h);
        reply := Released(x);
    }
  }

  /** A handle given out by the `i`-th operation. */
  predicate Issues(v: Tables, ops: seq<HandleOp>, i: nat)
    requires i < |ops|
  {
    var r := ReplyTo(StepAll(v, ops[..i]), ops[i]);
    r.Opened? && r.got.Success?
  }

  function IssuedAt(v: Tables, ops: seq<HandleOp>, i: nat): nat
    requires i < |ops| && Issues(v, ops, i)
  {
    ReplyTo(StepAll(v, ops[..i]), ops[i]).got.value
  }

  /** Handles are given out in increasing order, and lost ones stay lost. */
  lemma {:induction false} NeverReissued(v: Tables, ops: seq<HandleOp>, i: nat, j: nat)
    requires i <= j <= |ops|
    ensures var s, t := StepAll(v, ops[..i]), StepAll(v, ops[..j]);
            s.next <= t.next && s.lost <= t.lost
    ensures i < j && Issues(v, ops, i) ==> IssuedAt(v, ops, i) < StepAll(v, ops[..j]).next
    ensures i < j < |ops| && Issues(v, ops, i) && Issues(v, ops, j) ==> IssuedAt(v, ops, i) < IssuedAt(v, ops, j)
    decreases j
  {
    if i < j {
      StepAllSnoc(v, ops, j - 1);
      NeverReissued(v, ops, i, j - 1);
    }
  }

  /**
   * When preparing the writer of a read-write open fails, the handle that no caller gets is lost: after any
   * further run, rebuilding the inode's readers meets it and finds nothing under it, unless it is the one
   * to skip.
   */
  method LostForGood(tables: HandleTables, ino: nat, ops: seq<HandleOp>, skip: nat) returns (r: FsResult<nat>, found: bool)
    requires tables.Valid() && ino !in tables.writeHandles.Values && skip != tables.currentHandle
    modifies tables
    ensures r == Failure(Io) && !found
  {
    hide HandleTables.Valid, HandleTables.Lost;
    ghost var h := tables.currentHandle;
    r := tables.Open(ino, false, true, true, true);
    ghost var v := ViewOf(tables);
    assert (ino, h) in v.lost;
    var replies := Run(tables, ops);
    NeverReissued(v, ops, 0, |ops|);
    assert ops[..0] == [] && ops[..|ops|] == ops;
    found := tables.LookupReaders(ino, skip);
    assert (ino, h) in tables.Lost();
  }

  /** As long as nobody opens an inode for writing it has no writer. */
  lemma {:induction false} NoWriterStays(v: Tables, ops: seq<HandleOp>, ino: nat)
    requires ino !in v.writers.Values
    requires forall i :: 0 <= i < |ops| && ops[i].OpenOp? && ops[i].write ==> ops[i].ino != ino
    ensures ino !in StepAll(v, ops).writers.Values
    decreases |ops|
  {
    if ops != [] {
      var w := StepTables(v, ops[0]);
      assert forall h :: h in w.writers && w.writers[h] == ino ==> h in v.writers && v.writers[h] == ino;
      NoWriterStays(w, ops[1..], ino);
    }
  }

  /**
   * Once a writer is released, and after any run in which nobody else opens its inode for writing, the inode
   * can be opened for writing again, under a new handle.
   */
  method ReopenAfterRelease(tables: HandleTables, h: nat, ops: seq<HandleOp>) returns (r: FsResult<()>, again: FsResult<nat>)
    requires tables.Valid() && h in tables.writeHandles
    requires forall i :: 0 <= i < |ops| && ops[i].OpenOp? && ops[i].write ==> ops[i].ino != tables.writeHandles[h]
    modifies tables
    ensures r == Success(()) && again.Success? && again.value > h
    ensures again.value in tables.writeHandles && tables.writeHandles[again.value] == old(tables.writeHandles)[h]
  {
    var ino := tables.writeHandles[h];
    r := tables.Release(h);
    tables.WriterKnown(ino);
    hide HandleTables.Valid, HandleTables.Lost;
    ghost var v := ViewOf(tables);
    var replies := Run(tables, ops);
    NoWriterStays(v, ops, ino);
    NeverReissued(v, ops, 0, |ops|);
    assert ops[..0] == [] && ops[..|ops|] == ops;
    tables.WriterKnown(ino);
    again := tables.Open(ino, false, false, true, false);
  }
}
