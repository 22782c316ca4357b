/** Whole runs of the seekable writer, measured against a plain byte array. */
module WriterRuns {
  import opened Bytes
  import opened Layout
  import opened Buffers
  import opened CryptoWriteSeek
  import opened WriterMachine

  /** A seek and a write at once, or a flush. */
  datatype Op = SeekWrite(pos: nat, data: seq<byte>) | FlushOp

  /** What one operation does to a byte array. */
  function Apply(a: seq<byte>, op: Op): seq<byte> {
    match op
    case SeekWrite(p, x) => WriteAt(a, p, x)
    case FlushOp => a
  }

  function ApplyAll(a: seq<byte>, ops: seq<Op>): seq<byte>
    decreases |ops|
  {
    if ops == [] then a else ApplyAll(Apply(a, ops[0]), ops[1..])
  }

  /** A seek and a write, or a seek alone, come to the positioned write. */
  predicate Positioned(P: nat, s: State, p: nat, x: seq<byte>)
    requires P > 0 && s.State?
  {
    if x == [] then Agrees(P, s, SeekOp(p)) && (p == s.pos ==> p <= |s.a|) else SeekWriteGuard(P, s, p, x)
  }

  function After(P: nat, s: State, op: Op): State
    requires P > 0 && s.State?
  {
    match op
    case FlushOp => AfterFlush(s)
    case SeekWrite(p, x) =>
      var s1 := AfterSeek(P, s, p);
      if s1.State? then AfterWrite(P, s1, x) else Torn
  }

  /**
   * Each write comes to the positioned write, with no bytes of an old block and no zeros over stored bytes,
   * no front is left by a seek, and none is pending at the end.
   */
  predicate WellBehaved(P: nat, s: State, ops: seq<Op>)
    requires P > 0
    decreases |ops|
  {
    s.State? &&
    if ops == [] then !s.cache.Front?
    else
      && (ops[0].SeekWrite? ==> Positioned(P, s, ops[0].pos, ops[0].data))
      && WellBehaved(P, After(P, s, ops[0]), ops[1..])
  }

  lemma {:induction false} ApplyAllSnoc(a: seq<byte>, ops: seq<Op>, i: nat)
    requires i < |ops|
    ensures ApplyAll(a, ops[..i + 1]) == Apply(ApplyAll(a, ops[..i]), ops[i])
    decreases i
  {
    if i == 0 {
      assert ops[..1][1..] == [];
    } else {
      ApplyAllSnoc(Apply(a, ops[0]), ops[1..], i - 1);
      assert ops[..i + 1][1..] == ops[1..][..i];
      assert ops[..i][1..] == ops[1..][..i - 1];
    }
  }

  /** One seek and write of a run. */
  method StepSeekWrite(w: RingCryptoWriteSeek, p: nat, x: seq<byte>)
    requires w.Live() && After(w.inner.c.P, StateOf(w), SeekWrite(p, x)).State?
    requires Positioned(w.inner.c.P, StateOf(w), p, x)
    modifies w.inner, w.inner.out, w.inner.out.node, w.inner.buf, w.inner.buf.data
    modifies w.decryptBuf, w.decryptBuf.data
    ensures w.Live() && StateOf(w) == After(w.inner.c.P, old(StateOf(w)), SeekWrite(p, x))
    ensures StateOf(w).a == WriteAt(old(StateOf(w)).a, p, x)
  {
    hide Off, Div, Mod, Stores, WriteAt, ZeroExtend, StateOf, AfterSeek, AfterWrite, Agrees, SeekWriteGuard;
    hide RingCryptoWriteSeek.Live;
    ghost var P, s := w.inner.c.P, StateOf(w);
    StateFormed(w);
    WriteAtNothing(s.a, p);
    StepSeek(w, p);
    var _ := StepWrite(w, x);
    if x != [] {
      SeekWriteExactly(P, s, p, x);
    } else {
      WriteNothing(P, AfterSeek(P, s, p));
      SeekAlone(P, s, p);
    }
  }

  lemma WriteNothing(P: nat, s: State)
    requires P > 0 && s.State?
    ensures AfterWrite(P, s, []) == s
  {
  }

  /** A seek alone extends the plaintext as it should exactly under its guard. */
  lemma SeekAlone(P: nat, s: State, p: nat)
    requires P > 0 && Formed(P, s) && Agrees(P, s, SeekOp(p)) && (p == s.pos ==> p <= |s.a|)
    ensures AfterSeek(P, s, p).State? && AfterSeek(P, s, p).a == ZeroExtend(s.a, p)
  {
    SeekAgrees(P, s, p);
  }

  /** A well-behaved run through a writer in any state. */
  method RunOps(w: RingCryptoWriteSeek, ops: seq<Op>)
    requires w.Live() && WellBehaved(w.inner.c.P, StateOf(w), ops)
    modifies w.inner, w.inner.out, w.inner.out.node, w.inner.buf, w.inner.buf.data
    modifies w.decryptBuf, w.decryptBuf.data
    ensures w.Live() && !StateOf(w).cache.Front? && w.Plain() == ApplyAll(old(w.Plain()), ops)
  {
    hide Off, Div, Mod, Stores, WriteAt, StateOf, After, Positioned, RingCryptoWriteSeek.Live;
    PlainOf(w);
    ghost var a := w.Plain();
    for i := 0 to |ops|
      invariant w.Live() && StateOf(w).State? && StateOf(w).a == ApplyAll(a, ops[..i])
      invariant WellBehaved(w.inner.c.P, StateOf(w), ops[i..])
    {
      ApplyAllSnoc(a, ops, i);
      assert ops[i..][0] == ops[i] && ops[i..][1..] == ops[i + 1..];
      Unfold(w.inner.c.P, StateOf(w), ops[i..]);
      match ops[i] {
        case SeekWrite(p, x) => StepSeekWrite(w, p, x);
        case FlushOp => StepFlush(w);
      }
    }
    PlainOf(w);
    assert ops[..|ops|] == ops;
  }

  lemma Unfold(P: nat, s: State, ops: seq<Op>)
    requires P > 0 && WellBehaved(P, s, ops) && ops != []
    ensures ops[0].SeekWrite? ==> Positioned(P, s, ops[0].pos, ops[0].data)
    ensures After(P, s, ops[0]).State? && WellBehaved(P, After(P, s, ops[0]), ops[1..])
    ensures ops[0].FlushOp? ==> After(P, s, ops[0]) == AfterFlush(s) && AfterFlush(s).a == s.a
  {
  }

  /**
   * A plainer condition: every seek is followed by a nonempty write, and after a flush of a full block inside
   * the plaintext the next write does not go on there with less than the block that is stored there.
   */
  predicate NeverHits(P: nat, a: seq<byte>, pos: nat, full: bool, flushed: bool, ops: seq<Op>)
    requires P > 0
    decreases |ops|
  {
    ops == [] ||
    match ops[0]
    case FlushOp =>
      NeverHits(P, a, pos, false, flushed || (full && pos < |a|), ops[1..])
    case SeekWrite(p, x) =>
      && x != []
      && !(flushed && p == pos && |x| < P && p + |x| < |a|)
      && NeverHits(P, WriteAt(a, p, x), p + |x|, Mod(p + |x|, P) == 0, false, ops[1..])
  }

  /** It suffices, as long as no block is only loaded, left over or cut. */
  lemma {:induction false} NeverHitsBehaves(P: nat, s: State, ops: seq<Op>)
    requires P > 0 && Formed(P, s) && (s.cache.Nothing? || s.cache.Pending? || s.cache.Unloaded?)
    requires NeverHits(P, s.a, s.pos, s.cache == Pending(true), s.cache.Unloaded?, ops)
    ensures WellBehaved(P, s, ops)
    decreases |ops|
  {
    hide Div, Mod, Off, WriteAt, ZeroExtend;
    if ops != [] {
      match ops[0] {
        case FlushOp =>
        case SeekWrite(p, x) =>
          SeekWriteExactly(P, s, p, x);
          EndsInside(s.a, p, x);
      }
      NeverHitsBehaves(P, After(P, s, ops[0]), ops[1..]);
    }
  }

  lemma EndsInside(a: seq<byte>, p: nat, x: seq<byte>)
    ensures p + |x| <= |WriteAt(a, p, x)|
  {
  }

  /**
   * From a fresh writer over a stored stream, a well-behaved run followed by `finish` leaves a stream
   * that decodes to the byte array with every write applied in turn.
   */
  method Run(c: Codec, d: seq<byte>, ops: seq<Op>) returns (d': seq<byte>)
    requires Decode(c, 0, d).Some?
    requires WellBehaved(c.P, State(Decode(c, 0, d).value, 0, Nothing), ops)
    ensures Decode(c, 0, d') == Some(ApplyAll(Decode(c, 0, d).value, ops))
  {
    hide Off, Div, Mod, Stores, Decode, WellBehaved, ApplyAll, StateOf, RingCryptoWriteSeek.Live;
    ghost var a := Decode(c, 0, d).value;
    StoresIffDecodes(c, d, a);
    var node := new Inode(d);
    var file := new File(node);
    var w := new RingCryptoWriteSeek(c, file, a);
    Starts(w, a);
    RunOps(w, ops);
    Finishable(w);
    PlainOf(w);
    var _ := w.Finish();
    StoresIffDecodes(c, node.bytes, ApplyAll(a, ops));
    return node.bytes;
  }
}
