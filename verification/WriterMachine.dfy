/** Every run of the seekable writer: what it stores, block left over or not. */
module WriterMachine {
  import opened Bytes
  import opened Layout
  import opened Buffers
  import opened CryptoWrite
  import opened CryptoWriteSeek
  import opened ShortBlocks

  datatype Op = SeekOp(pos: nat) | WriteOp(data: seq<byte>) | FlushOp

  /** What the one cached block is. */
  datatype Cache =
    | Nothing                    // fresh, or behind the last whole block
    | Loaded                     // the stored block of the cursor, unchanged
    | Pending(full: bool)        // written to; `full` when the cursor is at its end
    | Unloaded                   // a full block inside the plaintext was flushed, the next is not loaded
    | Front(end: nat)            // written to up to `end` without having been loaded, so cut there if stored now
    | Leftover(kept: seq<byte>)  // an old block, taken for the one behind the end

  /** The plaintext and the cursor; torn once a front was stored over the front of its block. */
  datatype State = State(a: seq<byte>, pos: nat, cache: Cache) | Torn

  /** A seek that keeps a clean loaded block for the one behind the end. */
  predicate StaleSeek(P: nat, s: State, t: nat)
    requires P > 0
  {
    s.State? && t != s.pos && s.cache.Loaded? && Mod(|s.a|, P) == 0 && |s.a| <= t
  }

  /** Where the block of `p` ends. */
  function BlockEnd(P: nat, p: nat): nat
    requires P > 0
  {
    p + (P - Min(Mod(p, P), P))
  }

  function CacheAfterSeek(P: nat, s: State, t: nat): Cache
    requires P > 0 && s.State?
  {
    if t > |s.a| then Pending(Mod(t, P) == 0)
    else if s.cache == Pending(false) && Div(t, P) == Div(s.pos, P) then Pending(false)
    else if t == |s.a| && Mod(t, P) == 0 then Nothing
    else Loaded
  }

  /** From a front: zeros go over what is stored between its end and the target. */
  function FrontAfterSeek(P: nat, s: State, t: nat): State
    requires P > 0 && s.State? && s.cache.Front?
  {
    if Div(t, P) != Div(s.pos, P) then Torn
    else if t <= s.cache.end then State(s.a, t, s.cache)
    else
      var a := WriteAt(s.a, s.cache.end, Zeros(t - s.cache.end));
      State(a, t, if t < |a| then Front(t) else Pending(false))
  }

  function AfterSeek(P: nat, s: State, t: nat): State
    requires P > 0 && s.State?
  {
    if t == s.pos then s
    else if s.cache.Front? then FrontAfterSeek(P, s, t)
    else if s.cache.Leftover? then
      if t < |s.a| then State(s.a, t, Loaded)
      else if s.pos == |s.a| + P && Div(t, P) == Div(s.pos, P) && t >= P then
        State(WriteAt(s.a + s.cache.kept, t - P, Zeros(P)), t, Pending(false))
      else State(s.a, Min(t, |s.a| + P), s.cache)
    else if StaleSeek(P, s, t) then State(s.a, Min(t, |s.a| + P), Leftover(Chunk(s.a, Div(s.pos, P), P)))
    else State(ZeroExtend(s.a, t), t, CacheAfterSeek(P, s, t))
  }

  /** What the buffer holds after `n` bytes were written at the cursor. */
  function CacheAfterWrite(P: nat, s: State, n: nat): Cache
    requires P > 0 && s.State?
  {
    var p := s.pos + n;
    var end := if s.cache.Front? then Max(s.cache.end, p) else p;
    if (s.cache.Unloaded? || s.cache.Front?) && end < BlockEnd(P, s.pos) && end < |s.a| then Front(end)
    else Pending(Mod(p, P) == 0)
  }

  /** A left-over block with the cursor at its end takes nothing. */
  predicate Full(P: nat, s: State) {
    s.State? && s.cache.Leftover? && s.pos == |s.a| + P
  }

  function AfterWrite(P: nat, s: State, x: seq<byte>): State
    requires P > 0 && s.State?
  {
    if x == [] || Full(P, s) then s
    else
      var base := if s.cache.Leftover? then s.a + s.cache.kept else s.a;
      State(WriteAt(base, s.pos, x), s.pos + |x|, CacheAfterWrite(P, s, |x|))
  }

  /** What one `write` call takes: no more than up to the end of the block. */
  function Taken(P: nat, s: State, x: seq<byte>): (r: seq<byte>)
    requires P > 0 && s.State?
    ensures r <= x
  {
    DivMod(s.pos, P);
    x[..Min(|x|, P - Mod(s.pos, P))]
  }

  /** One `write` call. Even an empty one stores a full block and loads what is behind it. */
  function AfterCall(P: nat, s: State, x: seq<byte>): State
    requires P > 0 && s.State?
  {
    if x != [] then AfterWrite(P, s, Taken(P, s, x))
    else if s.cache == Pending(true) || (s.cache.Nothing? && s.pos == 0) then
      State(s.a, s.pos, if s.pos < |s.a| then Loaded else Nothing)
    else s
  }

  function AfterFlush(s: State): State
    requires s.State?
  {
    if s.cache == Pending(true) then State(s.a, s.pos, if s.pos < |s.a| then Unloaded else Nothing) else s
  }

  function Step(P: nat, s: State, op: Op): State
    requires P > 0
  {
    if s.Torn? then Torn else
    match op
    case SeekOp(t) => AfterSeek(P, s, t)
    case WriteOp(x) => AfterWrite(P, s, x)
    case FlushOp => AfterFlush(s)
  }

  function Steps(P: nat, s: State, ops: seq<Op>): State
    requires P > 0
    decreases |ops|
  {
    if ops == [] then s else Steps(P, Step(P, s, ops[0]), ops[1..])
  }

  // ---- the writer is the machine ------------------------------------------------------------

  ghost function CacheOf(w: RingCryptoWriteSeek): Cache
    reads w.inner, w.inner.out, w.inner.out.node, w.inner.buf, w.inner.buf.data
  {
    if w.Leftover() then Leftover(w.inner.buf.Content())
    else if w.Front() then Front(w.FrontEnd())
    else if w.inner.buf.dirty then Pending(w.Full())
    else if w.Unloaded() then Unloaded
    else if w.inner.buf.available == 0 then Nothing
    else Loaded
  }

  /** The state that the writer is in. */
  ghost function StateOf(w: RingCryptoWriteSeek): State
    reads w.inner, w.inner.out, w.inner.out.node, w.inner.buf, w.inner.buf.data
  {
    State(w.Plain(), w.Pos(), CacheOf(w))
  }

  lemma PlainOf(w: RingCryptoWriteSeek)
    ensures StateOf(w).State? && StateOf(w).a == w.Plain() && StateOf(w).pos == w.Pos()
  {
  }

  method StepSeek(w: RingCryptoWriteSeek, t: nat)
    requires w.Live() && AfterSeek(w.inner.c.P, StateOf(w), t).State?
    modifies w.inner, w.inner.out, w.inner.out.node, w.inner.buf, w.inner.buf.data
    modifies w.decryptBuf, w.decryptBuf.data
    ensures w.Live() && StateOf(w) == AfterSeek(w.inner.c.P, old(StateOf(w)), t)
    ensures !old(w.inner.buf.dirty) && t <= |old(w.Plain())| ==>
              && !w.inner.buf.dirty
              && w.inner.out.node.bytes == old(w.inner.out.node.bytes) && w.inner.stored == old(w.inner.stored)
  {
    hide Off, Div, Mod, Stores, Splice, WriteAt, ZeroExtend, Chunk, RingCryptoWrite.Laid, RingCryptoWriteSeek.Separate;
    hide AfterSeek, CacheOf;
    ghost var a, s, stale, restarts, front := w.Plain(), StateOf(w), w.Stale(t), w.Restarts(t), w.Front();
    SeekFacts(w, t);
    var r := w.Seek(Start(t));
    CacheIs(w);
    if t == s.pos {
      assert StateOf(w) == s;
    } else if front {
      assert StateOf(w) == FrontAfterSeek(w.inner.c.P, s, t);
    } else if restarts {
      assert StateOf(w).cache == Pending(false);
    } else if stale {
      assert StateOf(w).cache.Leftover?;
    } else {
      assert StateOf(w).cache == CacheAfterSeek(w.inner.c.P, s, t);
    }
  }

  /** What a seek meets. */
  lemma SeekFacts(w: RingCryptoWriteSeek, t: nat)
    requires w.Live()
    ensures var P, s := w.inner.c.P, StateOf(w);
            && (t == s.pos ==> AfterSeek(P, s, t) == s)
            && (w.Front() ==> s.cache == Front(w.FrontEnd()) && !w.Leftover() && !w.Valid() && !w.Stale(t) && !w.Restarts(t))
            && (w.Front() && t != s.pos && AfterSeek(P, s, t).State? ==>
                  AfterSeek(P, s, t) == FrontAfterSeek(P, s, t) && Div(t, P) == Div(s.pos, P) && w.Stays(t))
            && (t == s.pos && w.Front() ==> w.Stays(t))
            && (w.Restarts(t) ==>
                  && w.Stale(t) && Mod(t, P) != 0 && t > |s.a|
                  && AfterSeek(P, s, t) == State(WriteAt(w.inner.Laid(), t - P, Zeros(P)), t, Pending(false)))
            && (t != s.pos && w.Stale(t) && !w.Restarts(t) ==>
                  && s.a == w.inner.stored
                  && AfterSeek(P, s, t) == State(s.a, Min(t, |s.a| + P), Leftover(w.inner.buf.Content())))
            && (t != s.pos && !w.Front() && !w.Stale(t) ==>
                  AfterSeek(P, s, t) == State(ZeroExtend(s.a, t), t, CacheAfterSeek(P, s, t))
                  && (s.cache == Pending(false) <==> w.inner.buf.dirty && w.inner.buf.posWrite < P))
  {
    hide Off, Div, Mod, Stores, Splice, WriteAt, ZeroExtend, Chunk, RingCryptoWrite.Laid, RingCryptoWriteSeek.Separate;
    w.Here();
    if w.Leftover() { w.LeftoverBlock(); } else { w.CursorBlock(); }
    if w.Restarts(t) { w.RestartsFacts(t); DivMod(t, w.inner.c.P); DivMod(w.Pos(), w.inner.c.P); }
    if w.Stale(t) && w.Valid() { w.StaleIsElsewhere(t); }
    ExtendsTo(w.Plain(), |w.Plain()|, t);
  }

  lemma CacheIs(w: RingCryptoWriteSeek)
    requires w.Live()
    ensures w.Leftover() ==> CacheOf(w) == Leftover(w.inner.buf.Content()) && w.Plain() == w.inner.stored
    ensures w.Front() ==> CacheOf(w) == Front(w.FrontEnd())
    ensures w.Valid() && w.inner.buf.dirty ==> CacheOf(w) == Pending(w.Full())
    ensures w.Valid() && w.inner.buf.dirty && w.inner.buf.posWrite > 0 ==> (w.Full() <==> Mod(w.Pos(), w.inner.c.P) == 0)
    ensures w.Valid() && !w.inner.buf.dirty ==>
              CacheOf(w) == if w.Unloaded() then Unloaded else if w.inner.buf.available == 0 then Nothing else Loaded
  {
    hide Off, Div, Mod, Stores, Splice, WriteAt, ZeroExtend, Chunk, RingCryptoWrite.Laid, RingCryptoWriteSeek.Separate;
    w.Here();
    if !w.Leftover() { w.CursorBlock(); }
  }

  method StepWrite(w: RingCryptoWriteSeek, x: seq<byte>) returns (r: Result<()>)
    requires w.Live()
    modifies w.inner, w.inner.out, w.inner.out.node, w.inner.buf, w.inner.buf.data
    modifies w.decryptBuf, w.decryptBuf.data
    ensures w.Live() && StateOf(w) == AfterWrite(w.inner.c.P, old(StateOf(w)), x)
    ensures r == if x != [] && Full(w.inner.c.P, old(StateOf(w))) then Err(WriteZero) else Ok(())
  {
    hide Off, Div, Mod, Stores, Splice, WriteAt, ZeroExtend, Chunk, RingCryptoWrite.Laid, RingCryptoWrite.Sound;
    w.Here();
    if w.Leftover() { w.LeftoverBlock(); } else { w.CursorBlock(); }
    if x != [] { CutsIs(w, |x|); }
    r := w.WriteAll(x);
    w.Here();
    if !w.Leftover() { w.CursorBlock(); }
  }

  /** One `write` call on the writer. */
  method StepCall(w: RingCryptoWriteSeek, x: seq<byte>) returns (r: Result<nat>)
    requires w.Live()
    modifies w.inner, w.inner.out, w.inner.out.node, w.inner.buf, w.inner.buf.data
    modifies w.decryptBuf, w.decryptBuf.data
    ensures w.Live() && StateOf(w) == AfterCall(w.inner.c.P, old(StateOf(w)), x)
    ensures r == Ok(if Full(w.inner.c.P, old(StateOf(w))) then 0 else |Taken(w.inner.c.P, old(StateOf(w)), x)|)
    ensures !old(w.inner.buf.dirty) ==>
              w.inner.out.node.bytes == old(w.inner.out.node.bytes) && w.inner.stored == old(w.inner.stored)
  {
    hide Off, Div, Mod, Stores, Splice, WriteAt, ZeroExtend, Chunk, RingCryptoWrite.Laid, CacheOf, AfterCall;
    CallFacts(w, x);
    r := w.Write(x);
    CacheIs(w);
  }

  /** What a `write` call meets. */
  lemma CallFacts(w: RingCryptoWriteSeek, x: seq<byte>)
    requires w.Live()
    ensures var P, s := w.inner.c.P, StateOf(w);
            var y := Taken(P, s, x);
            && (Full(P, s) <==> w.Stuck()) && |y| == Min(|x|, P - Mod(w.Pos(), P))
            && (w.Stuck() && x != [] ==> AfterCall(P, s, x) == s)
            && (x != [] && !w.Stuck() ==>
                  AfterCall(P, s, x) ==
                  State(WriteAt(w.inner.Laid(), s.pos, y), s.pos + |y|,
                        if w.Cuts(|x|) then Front(if w.Front() then Max(w.FrontEnd(), s.pos + |y|) else s.pos + |y|)
                        else Pending(Mod(s.pos + |y|, P) == 0)))
            && (x == [] ==>
                  AfterCall(P, s, x) ==
                  if w.Valid() && (w.Full() || (w.Pos() == 0 && w.inner.buf.available == 0)) then
                    State(s.a, s.pos, if s.pos < |s.a| then Loaded else Nothing)
                  else s)
  {
    hide Off, Div, Mod, Stores, Splice, WriteAt, ZeroExtend, Chunk, RingCryptoWrite.Laid;
    w.Here();
    DivMod(w.Pos(), w.inner.c.P);
    OffStep(0, w.inner.c.P);
    if w.inner.blockIndex > 0 { OffMono(0, w.inner.blockIndex, w.inner.c.P); }
    if w.Leftover() { w.LeftoverBlock(); } else { w.CursorBlock(); }
    if x != [] {
      CutsIs(w, |x|);
      CutsIs(w, |Taken(w.inner.c.P, StateOf(w), x)|);
      CutsTaken(w, |x|);
    }
  }

  /** What is not taken does not decide whether a front is left. */
  lemma CutsTaken(w: RingCryptoWriteSeek, n: nat)
    requires w.Live()
    ensures var room := w.inner.c.P - Mod(w.Pos(), w.inner.c.P);
            n > room ==> !w.Cuts(n) && (room > 0 ==> !w.Cuts(room))
  {
    hide Off, Div, Mod, Stores, Splice, WriteAt, Chunk;
    w.inner.CursorOffset();
  }

  /** The writer cuts exactly where the machine ends in a front. */
  lemma CutsIs(w: RingCryptoWriteSeek, n: nat)
    requires w.Live() && n > 0
    ensures w.Cuts(n) <==> CacheAfterWrite(w.inner.c.P, StateOf(w), n).Front?
    ensures !w.Leftover() ==> w.inner.Laid() == w.Plain()
  {
    hide Off, Div, Mod, Stores, Splice, WriteAt, ZeroExtend, Chunk;
    w.Here();
    w.inner.CursorOffset();
    w.inner.LaidLen();
  }

  method StepFlush(w: RingCryptoWriteSeek)
    requires w.Live()
    modifies w.inner, w.inner.out, w.inner.out.node, w.inner.buf, w.inner.buf.data
    ensures w.Live() && StateOf(w) == AfterFlush(old(StateOf(w)))
  {
    hide Off, Div, Mod, Stores, Splice, WriteAt, ZeroExtend, Chunk;
    w.Here();
    var r := w.Flush();
    w.Here();
  }

  lemma {:induction false} StepsSnoc(P: nat, s: State, ops: seq<Op>, i: nat)
    requires P > 0 && i < |ops|
    ensures Steps(P, s, ops[..i + 1]) == Step(P, Steps(P, s, ops[..i]), ops[i])
    decreases i
  {
    if i == 0 {
      assert ops[..1][1..] == [];
    } else {
      StepsSnoc(P, Step(P, s, ops[0]), ops[1..], i - 1);
      assert ops[..i + 1][1..] == ops[1..][..i];
      assert ops[..i][1..] == ops[1..][..i - 1];
    }
  }

  /** A run that is not torn at the end never was. */
  lemma {:induction false} PrefixUntorn(P: nat, s: State, ops: seq<Op>, i: nat)
    requires P > 0 && i <= |ops| && Steps(P, s, ops).State?
    ensures Steps(P, s, ops[..i]).State?
    decreases |ops| - i
  {
    if i == |ops| {
      assert ops[..i] == ops;
    } else {
      PrefixUntorn(P, s, ops, i + 1);
      StepsSnoc(P, s, ops, i);
    }
  }

  // ---- the byte array with a cursor ---------------------------------------------------------

  datatype Cursor = Cursor(a: seq<byte>, pos: nat)

  function Move(c: Cursor, op: Op): Cursor {
    match op
    case SeekOp(t) => Cursor(ZeroExtend(c.a, t), t)
    case WriteOp(x) => Cursor(WriteAt(c.a, c.pos, x), c.pos + |x|)
    case FlushOp => c
  }

  function Moves(c: Cursor, ops: seq<Op>): Cursor
    decreases |ops|
  {
    if ops == [] then c else Moves(Move(c, ops[0]), ops[1..])
  }

  function CursorOf(s: State): Cursor
    requires s.State?
  {
    Cursor(s.a, s.pos)
  }

  /** What the cached block can be in a state. */
  predicate Formed(P: nat, s: State)
    requires P > 0
  {
    && s.State?
    && (if s.cache.Leftover? then |s.cache.kept| == P && Mod(|s.a|, P) == 0 && |s.a| <= s.pos <= |s.a| + P
        else s.pos <= |s.a|)
    && (s.cache.Loaded? ==> Off(Div(s.pos, P), P) < |s.a|)
    && (s.cache.Front? ==> s.pos <= s.cache.end < |s.a|)
  }

  /** From the end of a left-over block to a place in the block behind it. */
  predicate Restarts(P: nat, s: State, t: nat)
    requires P > 0
  {
    Full(P, s) && t != s.pos && Div(t, P) == Div(s.pos, P) && t >= P
  }

  /**
   * The guard of one step: a seek neither goes behind the end with an old block, nor puts zeros over stored
   * bytes behind a front that were not zero, nor leaves a front; a write does not leave a part of an old block.
   */
  predicate Agrees(P: nat, s: State, op: Op)
    requires P > 0 && s.State?
  {
    match op
    case SeekOp(t) =>
      t == s.pos ||
      (match s.cache
       case Front(end) => Div(t, P) == Div(s.pos, P) && ZeroFrom(s.a, end, t)
       case Leftover(b) => t < |s.a| || (if Restarts(P, s, t) then ZeroFrom(b, 0, t - P - |s.a|) else t == |s.a|)
       case _ => StaleSeek(P, s, t) ==> t == |s.a|)
    case WriteOp(x) => s.cache.Leftover? ==> |x| >= P || x == []
    case FlushOp => true
  }

  /** One step of the machine is the byte array's exactly under its guard. */
  lemma StepAgrees(P: nat, s: State, op: Op)
    requires P > 0 && Formed(P, s) && s.pos <= |s.a|
    ensures var s' := Step(P, s, op);
            && (Agrees(P, s, op) <==> s'.State? && CursorOf(s') == Move(CursorOf(s), op))
            && (Agrees(P, s, op) ==> Formed(P, s') && s'.pos <= |s'.a|)
  {
    hide WriteAt, ZeroExtend, Div, Mod, Off;
    match op {
      case SeekOp(t) => SeekAgrees(P, s, t);
      case WriteOp(x) => WriteAgrees(P, s, x);
      case FlushOp =>
    }
  }

  lemma SeekAgrees(P: nat, s: State, t: nat)
    requires P > 0 && Formed(P, s) && (t == s.pos ==> t <= |s.a|)
    ensures var s' := AfterSeek(P, s, t);
            && (Agrees(P, s, SeekOp(t)) <==> s'.State? && CursorOf(s') == Cursor(ZeroExtend(s.a, t), t))
            && (Agrees(P, s, SeekOp(t)) ==> Formed(P, s') && t <= |s'.a|)
  {
    hide WriteAt, ZeroExtend, Div, Mod, Off, Chunk;
    ExtendsTo(s.a, |s.a|, t);
    DivMod(t, P);
    BlockAtEnd(P, |s.a|, t);
    if s.cache.Front? {
      if t > s.cache.end { GapExactly(s.a, s.cache.end, t); }
    } else if Restarts(P, s, t) {
      RestartPlace(P, s, t);
      RestartExactly(s.a, s.cache.kept, t - P - |s.a|, []);
    } else if StaleSeek(P, s, t) {
      FullBlocks(s.a, Div(s.pos, P), P);
      ChunkHere(s.a, Div(s.pos, P), P);
    }
  }

  lemma WriteAgrees(P: nat, s: State, x: seq<byte>)
    requires P > 0 && Formed(P, s) && s.pos <= |s.a|
    ensures var s' := AfterWrite(P, s, x);
            && (Agrees(P, s, WriteOp(x)) <==> CursorOf(s') == Cursor(WriteAt(s.a, s.pos, x), s.pos + |x|))
            && (Agrees(P, s, WriteOp(x)) ==> Formed(P, s') && s'.pos <= |s'.a|)
  {
    hide WriteAt, ZeroExtend, Div, Mod, Off;
    WriteAtNothing(s.a, s.pos);
    if s.cache.Leftover? && x != [] && s.pos == |s.a| { HarmlessExactly(s.a, s.cache.kept, 0, x); }
  }

  /** The block of `t` starts inside `n` bytes exactly when they do not end, in whole blocks, at `t`. */
  lemma BlockAtEnd(P: nat, n: nat, t: nat)
    requires P > 0
    ensures t <= n ==> (Off(Div(t, P), P) < n <==> !(t == n && Mod(t, P) == 0))
  {
    hide Off, Div, Mod;
    DivMod(t, P);
  }

  lemma ChunkHere(a: seq<byte>, k: nat, size: nat)
    requires size > 0 && Off(k, size) < |a|
    ensures Chunk(a, k, size) != []
  {
  }

  /** Every step of the run meets its guard. */
  predicate Faithful(P: nat, s: State, ops: seq<Op>)
    requires P > 0
    decreases |ops|
  {
    s.State? && (ops != [] ==> Agrees(P, s, ops[0]) && Faithful(P, Step(P, s, ops[0]), ops[1..]))
  }

  /** The machine stands where the byte array does. */
  predicate Same(P: nat, s: State, c: Cursor, ops: seq<Op>)
    requires P > 0
  {
    Steps(P, s, ops).State? && CursorOf(Steps(P, s, ops)) == Moves(c, ops)
  }

  /** A run stands where the byte array does after every step exactly when every step meets its guard. */
  lemma {:induction false} FaithfulExactly(P: nat, s: State, ops: seq<Op>)
    requires P > 0 && Formed(P, s) && s.pos <= |s.a|
    ensures Faithful(P, s, ops) <==> forall i :: 0 <= i <= |ops| ==> Same(P, s, CursorOf(s), ops[..i])
    ensures Faithful(P, s, ops) ==> Same(P, s, CursorOf(s), ops)
    decreases |ops|
  {
    hide Agrees, Step, Move;
    if ops != [] {
      var op, s' := ops[0], Step(P, s, ops[0]);
      StepAgrees(P, s, op);
      forall i | 0 <= i < |ops| ensures ops[..i + 1][0] == op && ops[..i + 1][1..] == ops[1..][..i] {}
      if Agrees(P, s, op) {
        FaithfulExactly(P, s', ops[1..]);
        forall i | 0 <= i <= |ops|
          ensures i > 0 ==> (Same(P, s, CursorOf(s), ops[..i]) <==> Same(P, s', CursorOf(s'), ops[1..][..i - 1])) {
          if i > 0 { assert ops[..i][1..] == ops[1..][..i - 1]; }
        }
        forall i | 0 <= i < |ops| ensures Same(P, s', CursorOf(s'), ops[1..][..i]) <==> Same(P, s, CursorOf(s), ops[..i + 1]) {
          assert ops[..i + 1][1..] == ops[1..][..i];
        }
      } else {
        assert ops[..1] == [op];
        OneStep(P, s, CursorOf(s), op);
      }
    }
    assert ops[..|ops|] == ops;
  }

  lemma OneStep(P: nat, s: State, c: Cursor, op: Op)
    requires P > 0
    ensures Steps(P, s, [op]) == Step(P, s, op) && Moves(c, [op]) == Move(c, op)
  {
    assert [op][1..] == [];
  }

  /** When a seek and a write together are the positioned write. */
  predicate SeekWriteGuard(P: nat, s: State, t: nat, x: seq<byte>)
    requires P > 0 && s.State?
  {
    match s.cache
    case Front(end) => t == s.pos || (Div(t, P) == Div(s.pos, P) && ZeroFrom(s.a, end, t))
    case Leftover(b) =>
      t < |s.a| || (if Restarts(P, s, t) then ZeroFrom(b, 0, t - P - |s.a|) else Harmless(b, t - |s.a|, x))
    case _ => StaleSeek(P, s, t) ==> Harmless(Chunk(s.a, Div(s.pos, P), P), t - |s.a|, x)
  }

  /**
   * From any state, a seek and a nonempty write are the positioned write if and only if no bytes of an old
   * block, and no zeros over stored bytes, come with them, and no front is left.
   */
  lemma SeekWriteExactly(P: nat, s: State, t: nat, x: seq<byte>)
    requires P > 0 && Formed(P, s) && x != []
    ensures var s1 := AfterSeek(P, s, t);
            (s1.State? && AfterWrite(P, s1, x).a == WriteAt(s.a, t, x)) <==> SeekWriteGuard(P, s, t, x)
  {
    hide WriteAt, ZeroExtend, Div, Mod, Off, Chunk;
    ExtendThenWrite(s.a, t, x);
    if s.cache.Front? {
      FrontSeekWrite(P, s, t, x);
    } else if s.cache.Leftover? {
      LeftoverSeekWrite(P, s, t, x);
    } else if StaleSeek(P, s, t) {
      FullBlocks(s.a, Div(s.pos, P), P);
      ChunkHere(s.a, Div(s.pos, P), P);
      IntoOldBlock(P, s.a, Chunk(s.a, Div(s.pos, P), P), t, x);
    }
  }

  lemma FrontSeekWrite(P: nat, s: State, t: nat, x: seq<byte>)
    requires P > 0 && Formed(P, s) && s.cache.Front? && x != []
    ensures var s1 := AfterSeek(P, s, t);
            (s1.State? && AfterWrite(P, s1, x).a == WriteAt(s.a, t, x)) <==>
            t == s.pos || (Div(t, P) == Div(s.pos, P) && ZeroFrom(s.a, s.cache.end, t))
  {
    hide WriteAt, ZeroExtend, Div, Mod, Off;
    if t > s.cache.end { GapThenWrite(s.a, s.cache.end, t, x); }
  }

  lemma LeftoverSeekWrite(P: nat, s: State, t: nat, x: seq<byte>)
    requires P > 0 && Formed(P, s) && s.cache.Leftover? && x != []
    ensures AfterWrite(P, AfterSeek(P, s, t), x).a == WriteAt(s.a, t, x) <==>
            t < |s.a| || (if Restarts(P, s, t) then ZeroFrom(s.cache.kept, 0, t - P - |s.a|)
                          else Harmless(s.cache.kept, t - |s.a|, x))
  {
    hide WriteAt, ZeroExtend, Div, Mod, Off;
    if t < |s.a| {
    } else if Restarts(P, s, t) {
      RestartPlace(P, s, t);
      RestartExactly(s.a, s.cache.kept, t - P - |s.a|, x);
    } else {
      IntoOldBlock(P, s.a, s.cache.kept, t, x);
    }
  }

  /** With an old block behind the end, a write at `t` is the positioned write exactly when it is harmless. */
  lemma IntoOldBlock(P: nat, a: seq<byte>, b: seq<byte>, t: nat, x: seq<byte>)
    requires P > 0 && |b| == P && |a| <= t && x != []
    ensures a != WriteAt(a, t, x)
    ensures t < |a| + P ==> (WriteAt(a + b, t, x) == WriteAt(a, t, x) <==> Harmless(b, t - |a|, x))
  {
    hide WriteAt;
    WriteLens(a, t, x);
    if t < |a| + P { HarmlessExactly(a, b, t - |a|, x); }
  }

  lemma WriteLens(a: seq<byte>, t: nat, x: seq<byte>)
    ensures x != [] && t >= |a| ==> |WriteAt(a, t, x)| > |a|
  {
  }

  /** A restart aims at most a block behind the left-over one. */
  lemma RestartPlace(P: nat, s: State, t: nat)
    requires P > 0 && Restarts(P, s, t) && Formed(P, s)
    ensures |s.a| <= t - P <= |s.a| + P
  {
    hide Off, Div, Mod;
    var q := Div(|s.a|, P);
    DivMod(|s.a|, P);
    OffStep(q, P);
    OffDiv(q + 1, P);
    DivMod(t, P);
  }

  /**
   * From a fresh writer over any stored stream, every run of seeks, writes and flushes that leaves no front
   * for another block is the machine's. If no front is pending at the end, `finish` leaves a stream that
   * decodes to the machine's plaintext, which is the byte array's if every step met its guard. If one is,
   * `finish` stores it short, and the stream decodes to that plaintext exactly when the cipher opens the
   * mixed block to the block it should be.
   */
  method Run(c: Codec, d: seq<byte>, ops: seq<Op>) returns (d': seq<byte>)
    requires Decode(c, 0, d).Some?
    requires Steps(c.P, State(Decode(c, 0, d).value, 0, Nothing), ops).State?
    ensures var a := Decode(c, 0, d).value;
            var s := Steps(c.P, State(a, 0, Nothing), ops);
            && (if s.cache.Front? then
                  exists a0, k, x :: StoredShort(c, a0, k, x, d') && s.a == WriteAt(a0, Off(k, c.P), x) &&
                    s.cache.end == Off(k, c.P) + |x|
                else Decode(c, 0, d') == Some(s.a))
            && (Faithful(c.P, State(a, 0, Nothing), ops) ==> CursorOf(s) == Moves(Cursor(a, 0), ops))
  {
    hide Off, Div, Mod, Stores, Decode, Steps, Step, StateOf, Faithful, Moves;
    hide RingCryptoWriteSeek.Live, RingCryptoWriteSeek.Valid;
    ghost var a := Decode(c, 0, d).value;
    ghost var start := State(a, 0, Nothing);
    StoresIffDecodes(c, d, a);
    var node := new Inode(d);
    var file := new File(node);
    var w := new RingCryptoWriteSeek(c, file, a);
    Starts(w, a);
    NoSteps(c.P, start, ops[..0]);
    for i := 0 to |ops|
      invariant w.inner.c == c && w.inner.out == file && file.node == node
      invariant fresh(w.inner) && fresh(w.inner.buf) && fresh(w.inner.buf.data)
      invariant fresh(w.decryptBuf) && fresh(w.decryptBuf.data)
      invariant w.Live() && StateOf(w) == Steps(c.P, start, ops[..i])
    {
      StepsSnoc(c.P, start, ops, i);
      PrefixUntorn(c.P, start, ops, i + 1);
      StepRun(w, ops[i]);
    }
    assert ops[..|ops|] == ops;
    Finishable(w);
    ghost var s, a0, k, x := Steps(c.P, start, ops), w.inner.stored, w.inner.blockIndex, w.inner.buf.Content();
    ghost var d0 := node.bytes;
    var _ := w.Finish();
    if s.cache.Front? { CutIsShort(c, d0, a0, k, w.inner.lastNonce, x); }
    StoresIffDecodes(c, node.bytes, Steps(c.P, start, ops).a);
    if Faithful(c.P, start, ops) { FaithfulFromStart(c.P, a, ops); }
    return node.bytes;
  }

  lemma FaithfulFromStart(P: nat, a: seq<byte>, ops: seq<Op>)
    requires P > 0 && Faithful(P, State(a, 0, Nothing), ops)
    ensures var s := Steps(P, State(a, 0, Nothing), ops); s.State? && CursorOf(s) == Moves(Cursor(a, 0), ops)
  {
    FaithfulExactly(P, State(a, 0, Nothing), ops);
  }

  lemma NoSteps(P: nat, s: State, ops: seq<Op>)
    requires P > 0 && ops == []
    ensures Steps(P, s, ops) == s
  {
  }

  lemma Starts(w: RingCryptoWriteSeek, a: seq<byte>)
    requires w.Valid() && w.inner.buf.Empty() && !w.Unloaded() && w.Plain() == a && w.Pos() == 0
    ensures w.Live() && StateOf(w) == State(a, 0, Nothing)
  {
  }

  lemma Finishable(w: RingCryptoWriteSeek)
    requires w.Live()
    ensures w.inner.buf.Valid() && !w.inner.finished && (w.inner.buf.dirty ==> w.inner.Placed()) && w.inner.Sound()
    ensures StateOf(w).State? && w.inner.Plain() == StateOf(w).a
    ensures w.inner.buf.dirty && !StateOf(w).cache.Front? ==> w.inner.Valid()
    ensures StateOf(w).cache.Front? ==>
              var x := w.inner.buf.Content();
              && w.inner.buf.dirty && 0 < |x| < w.inner.c.P && Off(w.inner.blockIndex, w.inner.c.P) + |x| < |w.inner.stored|
              && StateOf(w).cache.end == Off(w.inner.blockIndex, w.inner.c.P) + |x|
              && StateOf(w).a == WriteAt(w.inner.stored, Off(w.inner.blockIndex, w.inner.c.P), x)
  {
    hide Off, Stores, Chunk, WriteAt;
    if StateOf(w).cache.Front? { WriteAtInside(w.inner.stored, Off(w.inner.blockIndex, w.inner.c.P), w.inner.buf.Content()); }
  }

  /** A writer's state is well formed. */
  lemma StateFormed(w: RingCryptoWriteSeek)
    requires w.Live()
    ensures Formed(w.inner.c.P, StateOf(w))
  {
    hide Off, Div, Mod, Stores, Splice, WriteAt, ZeroExtend, Chunk, RingCryptoWrite.Laid;
    w.Here();
    w.inner.LaidLen();
    ChunkFull(w.inner.stored, w.inner.blockIndex, w.inner.c.P);
    if w.Leftover() { w.LeftoverBlock(); } else { w.CursorBlock(); }
  }

  /** One call on the writer is one step of the machine. */
  method StepRun(w: RingCryptoWriteSeek, op: Op)
    requires w.Live() && Step(w.inner.c.P, StateOf(w), op).State?
    modifies w.inner, w.inner.out, w.inner.out.node, w.inner.buf, w.inner.buf.data
    modifies w.decryptBuf, w.decryptBuf.data
    ensures w.Live() && StateOf(w) == Step(w.inner.c.P, old(StateOf(w)), op)
  {
    hide Off, Div, Mod, Stores;
    match op {
      case SeekOp(t) => StepSeek(w, t);
      case WriteOp(x) => var _ := StepWrite(w, x);
      case FlushOp => StepFlush(w);
    }
  }
}
