/** Bytes, results and the plain byte array that every stream in this project is measured against. */
module Bytes {

  newtype byte = x: int | 0 <= x < 256

  datatype Option<+T> = None | Some(value: T)

  /** The ways an operation of the stream layer fails. */
  datatype IoError =
    | InvalidInput       // seek before the start, or out of a buffer's bounds
    | WriteZero          // write_all made no progress
    | UnexpectedEof      // an exact copy met the end of its source
    | AlreadyFinished    // the writer's output was taken by finish
    | OpenFailed         // a block did not authenticate
    | ShortBlock         // fewer bytes than a nonce were found where a block was due; the source panics

  datatype Result<+T> = Ok(value: T) | Err(error: IoError)

  datatype SeekFrom = Start(pos: nat) | End(delta: int) | Current(delta: int)

  function Min(a: int, b: int): (m: int)
    ensures m <= a && m <= b && (m == a || m == b)
  {
    if a <= b then a else b
  }

  function Max(a: int, b: int): (m: int)
    ensures m >= a && m >= b && (m == a || m == b)
  {
    if a <= b then b else a
  }

  function Zeros(n: nat): (z: seq<byte>)
    ensures |z| == n
  {
    seq(n, _ => 0)
  }

  /** `x` laid over `s` from offset `off`; `s` grows when `x` passes its end. */
  function Splice(s: seq<byte>, off: nat, x: seq<byte>): (r: seq<byte>)
    requires off <= |s|
    ensures |r| == Max(|s|, off + |x|)
  {
    if off + |x| <= |s| then s[..off] + x + s[off + |x|..] else s[..off] + x
  }

  /** `a` with zeros appended until it is at least `n` long. */
  function ZeroExtend(a: seq<byte>, n: nat): (r: seq<byte>)
    ensures |r| == Max(|a|, n)
  {
    if n <= |a| then a else a + Zeros(n - |a|)
  }

  /** The reference meaning of a positioned write: the gap past the end reads as zeros. */
  function WriteAt(a: seq<byte>, p: nat, x: seq<byte>): (r: seq<byte>)
    ensures |r| == Max(Max(|a|, p), p + |x|)
  {
    Splice(ZeroExtend(a, p), p, x)
  }

  /** First `n` bytes, zero-extended when there are fewer. */
  function Resize(a: seq<byte>, n: nat): (r: seq<byte>)
    ensures |r| == n
  {
    if n <= |a| then a[..n] else ZeroExtend(a, n)
  }

  /** Resizing keeps what fits, from the front, and appends zeros. */
  lemma ResizeAt(a: seq<byte>, n: nat, i: nat)
    requires i < n
    ensures Resize(a, n)[i] == if i < |a| then a[i] else 0
  {
  }

  lemma SpliceAt(s: seq<byte>, off: nat, x: seq<byte>, i: nat)
    requires off <= |s| && i < Max(|s|, off + |x|)
    ensures Splice(s, off, x)[i] == if off <= i < off + |x| then x[i - off] else s[i]
  {
  }

  /** A positioned write, byte by byte: the new bytes, else the old ones, else zeros. */
  lemma WrittenAt(a: seq<byte>, p: nat, x: seq<byte>, i: nat)
    requires i < |WriteAt(a, p, x)|
    ensures WriteAt(a, p, x)[i] == if p <= i < p + |x| then x[i - p] else if i < |a| then a[i] else 0
  {
    SpliceAt(ZeroExtend(a, p), p, x, i);
  }

  /** Two writes back to back are one write. */
  lemma WriteAtTwice(a: seq<byte>, p: nat, x: seq<byte>, y: seq<byte>)
    ensures WriteAt(WriteAt(a, p, x), p + |x|, y) == WriteAt(a, p, x + y)
  {
    var b := WriteAt(a, p, x);
    var l, r := WriteAt(b, p + |x|, y), WriteAt(a, p, x + y);
    forall i | 0 <= i < |l| ensures l[i] == r[i] {
      SpliceAt(b, p + |x|, y, i);
      SpliceAt(ZeroExtend(a, p), p, x + y, i);
      if i < |b| { SpliceAt(ZeroExtend(a, p), p, x, i); }
    }
  }

  lemma WriteAtNothing(a: seq<byte>, p: nat)
    ensures WriteAt(a, p, []) == ZeroExtend(a, p)
    ensures p <= |a| ==> ZeroExtend(a, p) == a
  {
  }

  /** Writing the zeros of the gap first changes nothing. */
  lemma ExtendThenWrite(a: seq<byte>, p: nat, x: seq<byte>)
    ensures WriteAt(ZeroExtend(a, p), p, x) == WriteAt(a, p, x)
    ensures ZeroExtend(a, |a|) == a
  {
  }

  lemma WriteZerosAtEnd(a: seq<byte>, n: nat)
    ensures WriteAt(a, |a|, Zeros(n)) == ZeroExtend(a, |a| + n)
  {
  }

  lemma WriteAtInside(a: seq<byte>, p: nat, x: seq<byte>)
    requires p <= |a|
    ensures WriteAt(a, p, x) == Splice(a, p, x)
  {
  }

  /** Editing a piece and laying it over `s` is laying it over `s` and editing there. */
  lemma SpliceNested(s: seq<byte>, off: nat, b: seq<byte>, p: nat, x: seq<byte>)
    requires off <= |s| && p <= |b|
    ensures Splice(Splice(s, off, b), off + p, x) == Splice(s, off, Splice(b, p, x))
  {
    var l, r := Splice(Splice(s, off, b), off + p, x), Splice(s, off, Splice(b, p, x));
    forall i | 0 <= i < |l| ensures l[i] == r[i] {
      SpliceAt(s, off, Splice(b, p, x), i);
      if i < |Splice(s, off, b)| { SpliceAt(s, off, b, i); }
      SpliceAt(Splice(s, off, b), off + p, x, i);
      if off <= i < off + |Splice(b, p, x)| { SpliceAt(b, p, x, i - off); }
    }
  }

  lemma SpliceSame(s: seq<byte>, off: nat, n: nat)
    requires off + n <= |s|
    ensures Splice(s, off, s[off..off + n]) == s
    ensures Splice(s, off, []) == s
  {
  }

  lemma SliceJoin(s: seq<byte>, lo: nat, mid: nat, hi: nat)
    requires lo <= mid <= hi <= |s|
    ensures s[lo..mid] + s[mid..hi] == s[lo..hi]
  {
  }

  lemma SpliceOntoNothing(x: seq<byte>)
    ensures Splice([], 0, x) == x
  {
  }

  /** A write into a piece `b` laid over `s` is a positioned write of the whole. */
  lemma WriteThrough(s: seq<byte>, off: nat, b: seq<byte>, p: nat, x: seq<byte>)
    requires off <= |s| && p <= |b|
    ensures WriteAt(Splice(s, off, b), off + p, x) == Splice(s, off, Splice(b, p, x))
    ensures x == [] ==> Splice(b, p, x) == b
    ensures b == [] ==> Splice(b, p, x) == x
  {
    WriteAtInside(Splice(s, off, b), off + p, x);
    SpliceNested(s, off, b, p, x);
    SpliceSame(b, p, 0);
    SpliceOntoNothing(x);
  }

  /** Writing on from where a longer write stopped. */
  lemma WriteMore(a: seq<byte>, p: nat, src: seq<byte>, done: nat, n: nat)
    requires done + n <= |src|
    ensures WriteAt(WriteAt(a, p, src[..done]), p + done, src[done..][..n]) == WriteAt(a, p, src[..done + n])
  {
    WriteAtTwice(a, p, src[..done], src[done..][..n]);
    assert src[..done] + src[done..][..n] == src[..done + n];
  }

  /**
   * A write of `x` at offset `o` of an old block `b` taken for the one behind `a`: the positioned write
   * exactly when it reaches the block's end and what precedes it in the block was zero anyway.
   */
  predicate Harmless(b: seq<byte>, o: int, x: seq<byte>) {
    0 <= o < |b| && o + |x| >= |b| && forall i :: 0 <= i < o ==> b[i] == 0
  }

  /** Behind the end of `a` a positioned write is a gap of zeros and the bytes. */
  lemma WriteBehind(a: seq<byte>, o: nat, x: seq<byte>)
    requires x != []
    ensures WriteAt(a, |a| + o, x) == a + (Zeros(o) + x)
  {
    assert ZeroExtend(a, |a| + o) == a + Zeros(o);
  }

  lemma WriteIntoTail(a: seq<byte>, b: seq<byte>, o: nat, x: seq<byte>)
    requires o <= |b|
    ensures WriteAt(a + b, |a| + o, x) == a + Splice(b, o, x)
  {
    WriteAtInside(a + b, |a| + o, x);
    var l, r := Splice(a + b, |a| + o, x), a + Splice(b, o, x);
    forall i | 0 <= i < |l| ensures l[i] == r[i] {
      SpliceAt(a + b, |a| + o, x, i);
      if i >= |a| { SpliceAt(b, o, x, i - |a|); }
    }
  }

  lemma HarmlessExactly(a: seq<byte>, b: seq<byte>, o: nat, x: seq<byte>)
    requires o < |b| && x != []
    ensures WriteAt(a + b, |a| + o, x) == a + Splice(b, o, x)
    ensures WriteAt(a + b, |a| + o, x) == WriteAt(a, |a| + o, x) <==> Harmless(b, o, x)
  {
    hide WriteAt;
    WriteIntoTail(a, b, o, x);
    WriteBehind(a, o, x);
    var l, r := Splice(b, o, x), Zeros(o) + x;
    assert a + l == a + r <==> l == r by {
      if a + l == a + r { assert (a + l)[|a|..] == l && (a + r)[|a|..] == r; }
    }
    if Harmless(b, o, x) {
      assert l == b[..o] + x && b[..o] == Zeros(o);
    } else if o + |x| >= |b| {
      var i :| 0 <= i < o && b[i] != 0;
      assert l[i] == b[i] && r[i] == 0;
    }
  }

  /** All bytes from `lo` to `hi` are zero already. */
  predicate ZeroFrom(a: seq<byte>, lo: nat, hi: int) {
    forall i :: lo <= i < hi && i < |a| ==> a[i] == 0
  }

  /** Zeros over the bytes from `lo` to `t` extend `a` to `t` exactly when they were zero already. */
  lemma GapExactly(a: seq<byte>, lo: nat, t: nat)
    requires lo <= |a| && lo <= t
    ensures WriteAt(a, lo, Zeros(t - lo)) == ZeroExtend(a, t) <==> ZeroFrom(a, lo, t)
  {
    var l, r := WriteAt(a, lo, Zeros(t - lo)), ZeroExtend(a, t);
    WriteAtInside(a, lo, Zeros(t - lo));
    forall i | 0 <= i < |l| ensures l[i] == if lo <= i < t then 0 else a[i] {
      SpliceAt(a, lo, Zeros(t - lo), i);
    }
    if ZeroFrom(a, lo, t) {
      assert l == r;
    } else {
      var i :| lo <= i < t && i < |a| && a[i] != 0;
      assert l[i] != r[i];
    }
  }

  /** The same with a write behind them. */
  lemma GapThenWrite(a: seq<byte>, lo: nat, t: nat, x: seq<byte>)
    requires lo <= |a| && lo <= t
    ensures WriteAt(WriteAt(a, lo, Zeros(t - lo)), t, x) == WriteAt(a, t, x) <==> ZeroFrom(a, lo, t)
  {
    var f := WriteAt(a, lo, Zeros(t - lo));
    GapExactly(a, lo, t);
    WriteAtInside(f, t, x);
    var l, r := Splice(f, t, x), Splice(ZeroExtend(a, t), t, x);
    if l == r {
      assert l[..t] == f[..t] && r[..t] == ZeroExtend(a, t)[..t];
      forall i | lo <= i < t && i < |a| ensures a[i] == 0 {
        assert f[i] == l[i] == r[i] == a[i];
        SpliceAt(a, lo, Zeros(t - lo), i);
        WriteAtInside(a, lo, Zeros(t - lo));
      }
    }
  }

  /** A block of zeros over the tail of `b` behind `a` extends `a` exactly when the rest of `b` was zero. */
  lemma RestartExactly(a: seq<byte>, b: seq<byte>, o: nat, x: seq<byte>)
    requires o <= |b|
    ensures var f := WriteAt(a + b, |a| + o, Zeros(|b|));
            && |f| == |a| + o + |b|
            && (f == ZeroExtend(a, |f|) <==> ZeroFrom(b, 0, o))
            && (WriteAt(f, |f|, x) == WriteAt(a, |f|, x) <==> ZeroFrom(b, 0, o))
  {
    var f := WriteAt(a + b, |a| + o, Zeros(|b|));
    WriteIntoTail(a, b, o, Zeros(|b|));
    assert f == a + (b[..o] + Zeros(|b|));
    var z := ZeroExtend(a, |f|);
    assert z == a + (Zeros(o) + Zeros(|b|));
    assert WriteAt(f, |f|, x) == f + x && WriteAt(a, |f|, x) == z + x;
    if ZeroFrom(b, 0, o) {
      assert b[..o] == Zeros(o);
    } else {
      var i :| 0 <= i < o && b[i] != 0;
      assert f[|a| + i] == b[i] && z[|a| + i] == 0;
      assert (f + x)[|a| + i] == b[i] && (z + x)[|a| + i] == 0;
    }
  }
}
