/** Whole runs of the seekable reader, measured against a cursor over the plaintext. */
module ReaderRuns {
  import opened Bytes
  import opened Layout
  import opened Buffers
  import opened CryptoRead

  datatype Op = ReadOp(len: nat) | SeekOp(from: SeekFrom)

  datatype Out = Data(bytes: seq<byte>) | At(pos: nat) | Refused

  /** The next byte to be read, where the cached block ends, and whether a read already met the end. */
  datatype Cursor = Cursor(next: nat, end: nat, drained: bool)

  predicate Sits(a: seq<byte>, cur: Cursor) {
    cur.next <= cur.end <= |a|
  }

  /** Where the reads start. */
  const START := Cursor(0, 0, false)

  function LastBlock(P: nat, a: seq<byte>): nat
    requires P > 0 && a != []
  {
    Div(|a| - 1, P)
  }

  /** The reported position: the cursor, or the start of the last block once drained. */
  function Reported(P: nat, a: seq<byte>, cur: Cursor): nat
    requires P > 0
  {
    if cur.drained && a != [] then Off(LastBlock(P, a), P) else cur.next
  }

  function Aim(P: nat, a: seq<byte>, cur: Cursor, from: SeekFrom): int
    requires P > 0
  {
    match from
    case Start(p) => p
    case End(d) => Reach(P, |a|) + d
    case Current(d) => Reported(P, a, cur) + d
  }

  /** A cursor that a read left past the end does not come back into the last block. */
  predicate Missed(P: nat, a: seq<byte>, drained: bool, p: nat)
    requires P > 0
  {
    drained && a != [] && Div(p, P) == LastBlock(P, a)
  }

  /** What is read at `offset` when up to `len` bytes are asked for. */
  function Given(P: nat, a: seq<byte>, drained: bool, offset: nat, len: nat): (r: seq<byte>)
    requires P > 0
    ensures |r| <= len
  {
    if Reach(P, |a|) < offset || Missed(P, a, drained, offset) then []
    else a[offset..Min(offset + len, |a|)]
  }

  /** Whether the cursor is past the end after that read. */
  predicate DrainedAfter(P: nat, a: seq<byte>, drained: bool, offset: nat, len: nat)
    requires P >= OVERHEAD
  {
    if offset <= Reach(P, |a|) then
      Missed(P, a, drained, offset) || (a != [] && |Given(P, a, drained, offset, len)| < len)
    else
      Reach(P, |a|) >= 0 && Missed(P, a, drained, Reach(P, |a|))
  }

  /** The cached block is used up, or dropped by an empty request. */
  predicate Loads(cur: Cursor, n: nat) {
    n == 0 || cur.next == cur.end
  }

  /** From where to where a read gives bytes. */
  function Span(P: nat, a: seq<byte>, cur: Cursor, n: nat): (r: (nat, nat))
    requires Sits(a, cur)
    ensures r.0 <= r.1 <= |a|
  {
    var from, end := if Loads(cur, n) then cur.end else cur.next, if Loads(cur, n) then Min(cur.end + P, |a|) else cur.end;
    (from, Min(from + n, end))
  }

  /** What one call returns. */
  function Reply(P: nat, a: seq<byte>, cur: Cursor, op: Op): Out
    requires P >= OVERHEAD && Sits(a, cur)
  {
    match op
    case ReadOp(n) => var s := Span(P, a, cur, n); Data(a[s.0..s.1])
    case SeekOp(from) =>
      ReachFits(P, |a|);
      var t := Aim(P, a, cur, from);
      if t < 0 then Refused
      else
        var p: nat := Min(t, Reach(P, |a|));
        At(if Missed(P, a, cur.drained, p) then Reported(P, a, cur) else p)
  }

  /** Where it leaves the cursor. */
  function After(P: nat, a: seq<byte>, cur: Cursor, op: Op): (r: Cursor)
    requires P >= OVERHEAD && Sits(a, cur)
  {
    match op
    case ReadOp(n) =>
      Cursor(Span(P, a, cur, n).1,
             if Loads(cur, n) then Min(cur.end + P, |a|) else cur.end,
             Loads(cur, n) && cur.end == |a| && a != [])
    case SeekOp(from) =>
      ReachFits(P, |a|);
      var t := Aim(P, a, cur, from);
      if t < 0 then cur
      else
        var p: nat := Min(t, Reach(P, |a|));
        if Missed(P, a, cur.drained, p) then Cursor(|a|, |a|, true)
        else if p == Reported(P, a, cur) then cur
        else Cursor(p, Min(Off(Div(p, P) + 1, P), |a|), false)
  }

  /** One call. */
  ghost predicate Step(P: nat, a: seq<byte>, cur: Cursor, op: Op, out: Out, cur': Cursor)
    requires P >= OVERHEAD
  {
    Sits(a, cur) && Sits(a, cur') && out == Reply(P, a, cur, op) && cur' == After(P, a, cur, op)
  }

  lemma ReachFits(P: nat, n: nat)
    requires P >= OVERHEAD
    ensures 0 <= Reach(P, n) <= n
  {
    DivMod(n, P);
  }

  ghost predicate Trace(P: nat, a: seq<byte>, curs: seq<Cursor>, ops: seq<Op>, outs: seq<Out>)
    requires P >= OVERHEAD
  {
    && |outs| == |ops| && |curs| == |ops| + 1 && curs[0] == START
    && forall i {:trigger outs[i]} :: 0 <= i < |ops| ==> Step(P, a, curs[i], ops[i], outs[i], curs[i + 1])
  }

  lemma LosesIsMissed(r: RingCryptoRead, p: nat)
    requires r.Valid()
    ensures r.Loses(p) <==> Missed(r.c.P, r.plain, r.Drained(), p)
  {
    hide Off, Div, Stores, Chunk;
    if r.Drained() { r.DrainedBlock(); }
  }

  ghost function CursorOf(r: RingCryptoRead): Cursor
    reads r, r.buf
  {
    Cursor(r.Next(), r.End(), r.Drained())
  }

  /** One call on the reader, an empty read included, is one step of the cursor. */
  method StepRun(r: RingCryptoRead, op: Op) returns (out: Out)
    requires r.Valid()
    modifies r, r.input, r.buf, r.buf.data
    ensures r.plain == old(r.plain) && r.Valid() && Step(r.c.P, r.plain, old(CursorOf(r)), op, out, CursorOf(r))
  {
    hide Off, Div, Mod, Stores, Chunk, RingCryptoRead.Next, RingCryptoRead.End, RingCryptoRead.Valid;
    match op {
      case ReadOp(n) => out := ReadStep(r, n);
      case SeekOp(from) => out := SeekStep(r, from);
    }
  }

  method ReadStep(r: RingCryptoRead, n: nat) returns (out: Out)
    requires r.Valid()
    modifies r, r.input, r.buf, r.buf.data
    ensures r.plain == old(r.plain) && r.Valid() && Step(r.c.P, r.plain, old(CursorOf(r)), ReadOp(n), out, CursorOf(r))
  {
    hide Off, Div, Mod, Stores, Chunk, RingCryptoRead.Next, RingCryptoRead.End, RingCryptoRead.Drained;
    r.EndOf();
    var read := r.Read(n);
    out := match read case Ok(x) => Data(x) case Err(_) => Refused;
  }

  method SeekStep(r: RingCryptoRead, from: SeekFrom) returns (out: Out)
    requires r.Valid()
    modifies r, r.input, r.buf, r.buf.data
    ensures r.plain == old(r.plain) && r.Valid() && Step(r.c.P, r.plain, old(CursorOf(r)), SeekOp(from), out, CursorOf(r))
  {
    hide Off, Div, Mod, Stores, Chunk, RingCryptoRead.Next, RingCryptoRead.End, RingCryptoRead.Loses;
    r.NextIsPos();
    r.ReportedEndFits();
    r.EndOf();
    if r.Drained() { r.DrainedBlock(); r.DrainedNext(); r.DrainedFits(); }
    ghost var t := Aim(r.c.P, r.plain, CursorOf(r), from);
    if t >= 0 { LosesIsMissed(r, Min(t, r.ReportedEnd())); }
    var s := r.Seek(from);
    out := match s case Ok(p) => At(p) case Err(_) => Refused;
    r.EndOf();
  }

  /**
   * Every run of seeks and reads over a stored stream behaves as the cursor does, empty reads and drained
   * states included.
   */
  method Run(c: Codec, d: seq<byte>, ops: seq<Op>) returns (outs: seq<Out>)
    requires Decode(c, 0, d).Some?
    ensures exists curs :: Trace(c.P, Decode(c, 0, d).value, curs, ops, outs)
  {
    hide Off, Div, Mod, Stores, Chunk, Decode, Step;
    ghost var a := Decode(c, 0, d).value;
    StoresIffDecodes(c, d, a);
    var node := new Inode(d);
    var file := new File(node);
    var r := new RingCryptoRead(c, file, a);
    outs := [];
    ghost var curs := [START];
    for i := 0 to |ops|
      invariant r.c == c && r.input == file && file.node == node && fresh(r.buf) && fresh(r.buf.data)
      invariant r.Valid() && r.plain == a
      invariant |outs| == i && |curs| == i + 1 && curs[0] == START
      invariant curs[i] == CursorOf(r)
      invariant forall j {:trigger outs[j]} :: 0 <= j < i ==> Step(c.P, a, curs[j], ops[j], outs[j], curs[j + 1])
    {
      var out := StepRun(r, ops[i]);
      outs := outs + [out];
      curs := curs + [CursorOf(r)];
    }
    assert Trace(c.P, a, curs, ops, outs);
  }

  /**
   * As long as no read met the end, a seek to a position up to the reported end lands there and the
   * read after it gives the bytes from there.
   */
  lemma {:induction false} UndrainedSeeks(P: nat, a: seq<byte>, curs: seq<Cursor>, ops: seq<Op>, outs: seq<Out>, k: nat)
    requires P >= OVERHEAD && Trace(P, a, curs, ops, outs) && k < |ops|
    requires forall i :: 0 <= i < k ==> outs[i] != Data([])
    ensures !curs[k].drained
    ensures ops[k].SeekOp? && ops[k].from.Start? && ops[k].from.pos <= Reach(P, |a|) ==>
              outs[k] == At(ops[k].from.pos)
    ensures ops[k].SeekOp? && ops[k].from.End? ==>
              var t := Reach(P, |a|) + ops[k].from.delta;
              outs[k] == if t < 0 then Refused else At(Min(t, Reach(P, |a|)))
    ensures ops[k].SeekOp? && ops[k].from.Current? ==>
              var t := curs[k].next + ops[k].from.delta;
              outs[k] == if t < 0 then Refused else At(Min(t, Reach(P, |a|)))
    ensures ops[k].SeekOp? && ops[k].from.Start? && ops[k].from.pos <= Reach(P, |a|) &&
            k + 1 < |ops| && ops[k + 1].ReadOp? ==>
              outs[k + 1].Data? && ops[k].from.pos + |outs[k + 1].bytes| <= |a| &&
              outs[k + 1].bytes == a[ops[k].from.pos..][..|outs[k + 1].bytes|]
  {
    assert Step(P, a, curs[k], ops[k], outs[k], curs[k + 1]);
    if k + 1 < |ops| {
      assert Step(P, a, curs[k + 1], ops[k + 1], outs[k + 1], curs[k + 2]);
    }
    if k > 0 {
      UndrainedSeeks(P, a, curs, ops, outs, k - 1);
      assert Step(P, a, curs[k - 1], ops[k - 1], outs[k - 1], curs[k]);
    }
  }
}
