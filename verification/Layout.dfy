/** How a plaintext is cut into sealed blocks, and the arithmetic of that cut. */
module Layout {
  import opened Bytes

  const NONCE_LEN: nat := 12
  const TAG_LEN: nat := 16
  const OVERHEAD: nat := NONCE_LEN + TAG_LEN

  type Nonce = n: seq<byte> | |n| == NONCE_LEN witness Zeros(NONCE_LEN)

  /**
   * An AEAD under a fixed key: `seal(nonce, blockIndex, plaintext)` is the ciphertext followed by the
   * tag, the block index being the associated data.
   */
  datatype Aead = Aead(
    seal: (seq<byte>, nat, seq<byte>) -> seq<byte>,
    open: (seq<byte>, nat, seq<byte>) -> Option<seq<byte>>)
  {
    ghost predicate Lawful() {
      && (forall n, i, p {:trigger seal(n, i, p)} ::
            |seal(n, i, p)| == |p| + TAG_LEN && open(n, i, seal(n, i, p)) == Some(p))
      && (forall n, i, c {:trigger open(n, i, c)} ::
            open(n, i, c).Some? ==> c == seal(n, i, open(n, i, c).value))
    }

    /** What was sealed for block `j` does not open as block `i`. */
    ghost predicate Binds(i: nat, j: nat) {
      forall n, p {:trigger seal(n, j, p)} :: open(n, i, seal(n, j, p)) == None
    }
  }

  /** A lawful instance: the tag repeats the plaintext length and the block index. */
  function ToyTag(i: nat, n: nat): (t: seq<byte>)
    ensures |t| == TAG_LEN
  {
    seq(TAG_LEN, j => if j == 0 then (n % 256) as byte else (i % 256) as byte)
  }

  function ToyAead(): Aead {
    Aead((n: seq<byte>, i: nat, p: seq<byte>) => p + ToyTag(i, |p|),
         (n: seq<byte>, i: nat, c: seq<byte>) =>
           if |c| >= TAG_LEN && c[|c| - TAG_LEN..] == ToyTag(i, |c| - TAG_LEN)
           then Some(c[..|c| - TAG_LEN]) else None)
  }

  lemma ToyIsLawful()
    ensures ToyAead().Lawful()
  {
    var t := ToyAead();
    forall n: seq<byte>, i: nat, p: seq<byte>
      ensures |t.seal(n, i, p)| == |p| + TAG_LEN && t.open(n, i, t.seal(n, i, p)) == Some(p)
    {
      var c := p + ToyTag(i, |p|);
      assert c[|c| - TAG_LEN..] == ToyTag(i, |p|) && c[..|c| - TAG_LEN] == p;
    }
    forall n: seq<byte>, i: nat, c: seq<byte> | t.open(n, i, c).Some?
      ensures c == t.seal(n, i, t.open(n, i, c).value)
    {
      assert c == c[..|c| - TAG_LEN] + c[|c| - TAG_LEN..];
    }
  }

  /** It tells two block indexes apart if their low bytes differ. */
  lemma ToyBinds(i: nat, j: nat)
    requires i % 256 != j % 256
    ensures ToyAead().Binds(i, j)
  {
    forall n: seq<byte>, p: seq<byte> ensures ToyAead().open(n, i, ToyAead().seal(n, j, p)) == None {
      var c := p + ToyTag(j, |p|);
      assert c[|c| - TAG_LEN..] == ToyTag(j, |p|);
      assert ToyTag(j, |p|)[1] != ToyTag(i, |p|)[1];
    }
  }

  datatype Params = Params(P: nat, aead: Aead) {
    /** Size of a full stored block. */
    function S(): nat { P + OVERHEAD }
  }

  /** Block size and cipher. `P >= 28` keeps the closed-form length from going below zero. */
  type Codec = c: Params | c.P >= OVERHEAD && c.aead.Lawful()
    ghost witness (ToyIsLawful(); Params(OVERHEAD, ToyAead()))

  // ---- block arithmetic -------------------------------------------------------------------

  function Off(k: nat, size: nat): nat { k * size }

  function Div(p: nat, size: nat): nat
    requires size > 0
  {
    p / size
  }

  function Mod(p: nat, size: nat): nat
    requires size > 0
  {
    p % size
  }

  lemma OffStep(k: nat, size: nat)
    ensures Off(0, size) == 0
    ensures Off(k + 1, size) == Off(k, size) + size
  {
    assert (k + 1) * size == k * size + size;
  }

  lemma OffMono(i: nat, j: nat, size: nat)
    requires i < j
    ensures Off(i, size) + size <= Off(j, size)
  {
    var m := j - i - 1;
    assert j * size == i * size + size + m * size by {
      assert j == i + 1 + m;
    }
    assert m * size >= 0;
  }

  lemma DivMod(p: nat, size: nat)
    requires size > 0
    ensures p == Off(Div(p, size), size) + Mod(p, size)
    ensures Mod(p, size) < size
  {
  }

  /** The quotient and remainder are the only way to write `p` as an offset and a rest. */
  lemma DivIs(p: nat, size: nat, k: nat)
    requires Off(k, size) <= p < Off(k, size) + size
    ensures Div(p, size) == k && Mod(p, size) == p - Off(k, size)
  {
    hide Off, Div, Mod;
    DivMod(p, size);
    var q := Div(p, size);
    if q < k { OffMono(q, k, size); } else if k < q { OffMono(k, q, size); }
  }

  lemma OffDiv(k: nat, size: nat)
    requires size > 0
    ensures Div(Off(k, size), size) == k && Mod(Off(k, size), size) == 0
  {
    hide Off, Div, Mod;
    DivIs(Off(k, size), size, k);
  }

  /** Bytes that `n` plaintext bytes occupy when stored. */
  function StoredLen(P: nat, n: nat): nat
    requires P > 0
  {
    Off(Div(n, P), P + OVERHEAD) + if Mod(n, P) == 0 then 0 else Mod(n, P) + OVERHEAD
  }

  /** Where block `k` of a plaintext of `n` bytes starts and ends in the stored stream. */
  lemma StoredLenAt(P: nat, n: nat, k: nat)
    requires P > 0 && Off(k, P) <= n
    ensures Off(k, P + OVERHEAD) <= StoredLen(P, n)
    ensures n == Off(k, P) ==> StoredLen(P, n) == Off(k, P + OVERHEAD)
    ensures Off(k, P) < n <= Off(k, P) + P ==>
              StoredLen(P, n) == Off(k, P + OVERHEAD) + (n - Off(k, P)) + OVERHEAD
    ensures n > Off(k, P) + P ==> StoredLen(P, n) > Off(k, P + OVERHEAD) + P + OVERHEAD
  {
    hide Off, Div, Mod;
    var S := P + OVERHEAD;
    DivMod(n, P);
    var q := Div(n, P);
    if q < k { OffMono(q, k, P); }
    if n < Off(k, P) + P {
      DivIs(n, P, k);
    } else {
      OffStep(k, P);
      OffStep(k, S);
      if n == Off(k, P) + P {
        OffDiv(k + 1, P);
      } else if q > k + 1 {
        OffMono(k + 1, q, S);
      }
    }
  }

  /** The stored length counts one nonce and one tag per started block. */
  lemma StoredLenFormula(P: nat, n: nat)
    requires P > 0
    ensures StoredLen(P, n) == n + OVERHEAD * ((n + P - 1) / P)
  {
    var q, r := n / P, n % P;
    assert n == q * P + r;
    assert q * (P + OVERHEAD) == q * P + OVERHEAD * q;
    if r == 0 {
      DivIs(n + P - 1, P, q);
    } else {
      OffStep(q, P);
      DivIs(n + P - 1, P, q + 1);
    }
  }

  /** The whole blocks of the stored stream are the whole blocks of the plaintext. */
  lemma StoredDiv(P: nat, n: nat)
    requires P > 0
    ensures Div(StoredLen(P, n), P + OVERHEAD) == Div(n, P)
    ensures StoredLen(P, n) == 0 <==> n == 0
    ensures Mod(StoredLen(P, n), P + OVERHEAD) == 0 <==> Mod(n, P) == 0
  {
    hide Off, Div, Mod;
    DivMod(n, P);
    var q := Div(n, P);
    DivIs(StoredLen(P, n), P + OVERHEAD, q);
    OffStep(q, P);
    OffStep(0, P + OVERHEAD);
    if q > 0 {
      OffMono(0, q, P + OVERHEAD);
      OffMono(0, q, P);
    }
  }

  /** The closed form both seekable streams use to turn a stored length into a plaintext length. */
  function ReportedLen(P: nat, len: nat): int
    requires P > 0
  {
    if len == 0 then 0 else len - (Div(len, P + OVERHEAD) + 1) * OVERHEAD
  }

  /** How far into a plaintext of `n` bytes the closed form reaches. */
  function Reach(P: nat, n: nat): int
    requires P > 0
  {
    if n == 0 || Mod(n, P) != 0 then n else n - OVERHEAD
  }

  /**
   * The closed form recovers the plaintext length exactly off the block boundary, and is short by
   * one block overhead on it.
   */
  lemma ReportedLenExact(P: nat, n: nat)
    requires P > 0
    ensures ReportedLen(P, StoredLen(P, n)) == Reach(P, n)
    ensures ReportedLen(P, StoredLen(P, n)) == n <==> n == 0 || Mod(n, P) != 0
  {
    StoredDiv(P, n);
    DivMod(n, P);
    var q := Div(n, P);
    assert q * (P + OVERHEAD) == q * P + q * OVERHEAD;
  }

  // ---- stored streams ---------------------------------------------------------------------

  /** Block `k` of `s` when cut into blocks of `size`; the last one may be short, later ones empty. */
  function Chunk(s: seq<byte>, k: nat, size: nat): (r: seq<byte>)
    ensures |r| <= size
  {
    s[Min(Off(k, size), |s|)..Min(Off(k, size) + size, |s|)]
  }

  function OpenChunk(c: Params, i: nat, chunk: seq<byte>): Option<seq<byte>> {
    if |chunk| < NONCE_LEN then None else c.aead.open(chunk[..NONCE_LEN], i, chunk[NONCE_LEN..])
  }

  function SealChunk(c: Codec, i: nat, nonce: Nonce, p: seq<byte>): (r: seq<byte>)
    ensures |r| == |p| + OVERHEAD
    ensures OpenChunk(c, i, r) == Some(p)
  {
    var r := nonce + c.aead.seal(nonce, i, p);
    assert r[..NONCE_LEN] == nonce && r[NONCE_LEN..] == c.aead.seal(nonce, i, p);
    r
  }

  ghost predicate BlockAt(c: Codec, base: nat, d: seq<byte>, a: seq<byte>, i: nat) {
    OpenChunk(c, base + i, Chunk(d, i, c.S())) == Some(Chunk(a, i, c.P))
  }

  /** `d` is a well-formed stored form of `a`, its first block carrying index `base`. */
  ghost predicate StoresFrom(c: Codec, base: nat, d: seq<byte>, a: seq<byte>) {
    && |d| == StoredLen(c.P, |a|)
    && forall i: nat {:trigger BlockAt(c, base, d, a, i)} :: Off(i, c.P) < |a| ==> BlockAt(c, base, d, a, i)
  }

  ghost predicate Stores(c: Codec, d: seq<byte>, a: seq<byte>) {
    StoresFrom(c, 0, d, a)
  }

  lemma ChunkByte(s: seq<byte>, k: nat, size: nat, j: nat)
    requires j < |Chunk(s, k, size)|
    ensures Off(k, size) + j < |s| && Chunk(s, k, size)[j] == s[Off(k, size) + j]
  {
  }

  /** Overwriting or appending block `k` touches no other block. */
  lemma ChunkOfSplice(s: seq<byte>, k: nat, size: nat, x: seq<byte>, i: nat)
    requires Off(k, size) <= |s| && 0 < |x| <= size
    requires |x| == size || |s| <= Off(k, size) + |x|
    ensures Chunk(Splice(s, Off(k, size), x), i, size) == if i == k then x else Chunk(s, i, size)
  {
    hide Off, Splice;
    var off := Off(k, size);
    var t := Splice(s, off, x);
    if i < k { OffMono(i, k, size); } else if k < i { OffMono(k, i, size); }
    var l, r := Chunk(t, i, size), if i == k then x else Chunk(s, i, size);
    assert |l| == |r|;
    forall j: nat | j < |l| ensures l[j] == r[j] {
      ChunkByte(t, i, size, j);
      SpliceAt(s, off, x, Off(i, size) + j);
      if i != k { ChunkByte(s, i, size, j); }
    }
  }

  /** Sealing a block over position `k` of a stored stream stores the plaintext with that block replaced. */
  lemma SpliceBlock(c: Codec, d: seq<byte>, a: seq<byte>, k: nat, nonce: Nonce, x: seq<byte>)
    requires Stores(c, d, a)
    requires Off(k, c.P) <= |a| && 0 < |x| <= c.P
    requires |x| == c.P || |a| <= Off(k, c.P) + |x|
    ensures Off(k, c.S()) <= |d|
    ensures Stores(c, Splice(d, Off(k, c.S()), SealChunk(c, k, nonce, x)), Splice(a, Off(k, c.P), x))
  {
    hide Off, Div, Mod, StoredLen, Chunk;
    var off, poff := Off(k, c.S()), Off(k, c.P);
    var y := SealChunk(c, k, nonce, x);
    StoredLenAt(c.P, |a|, k);
    var d', a' := Splice(d, off, y), Splice(a, poff, x);
    StoredLenAt(c.P, |a'|, k);
    assert |d'| == StoredLen(c.P, |a'|);
    forall i: nat | Off(i, c.P) < |a'| ensures BlockAt(c, 0, d', a', i) {
      ChunkOfSplice(d, k, c.S(), y, i);
      ChunkOfSplice(a, k, c.P, x, i);
      if i > k {
        OffMono(k, i, c.P);
        assert BlockAt(c, 0, d, a, i);
      } else if i < k {
        OffMono(i, k, c.P);
        assert BlockAt(c, 0, d, a, i);
      }
    }
  }

  /** The shape of the stored bytes at block `k`, for a `k` no further than the end. */
  lemma BlockShape(c: Codec, d: seq<byte>, a: seq<byte>, k: nat)
    requires Stores(c, d, a) && Off(k, c.P) <= |a|
    ensures Off(k, c.S()) <= |d|
    ensures Off(k, c.P) == |a| <==> Off(k, c.S()) == |d|
    ensures Chunk(d, k, c.S()) == [] <==> Chunk(a, k, c.P) == []
    ensures Chunk(a, k, c.P) == [] <==> Off(k, c.P) == |a|
    ensures Off(k, c.P) < |a| ==>
              && OpenChunk(c, k, Chunk(d, k, c.S())) == Some(Chunk(a, k, c.P))
              && |Chunk(d, k, c.S())| == |Chunk(a, k, c.P)| + OVERHEAD
  {
    StoredLenAt(c.P, |a|, k);
    if Off(k, c.P) < |a| { assert BlockAt(c, 0, d, a, k); }
  }

  /** Block `k` of a stored stream opens to block `k` of the plaintext; past the end there is nothing. */
  lemma BlockOrNone(c: Codec, d: seq<byte>, a: seq<byte>, k: nat)
    requires Stores(c, d, a)
    ensures Off(k, c.P) < |a| ==>
              && OpenChunk(c, k, Chunk(d, k, c.S())) == Some(Chunk(a, k, c.P))
              && Chunk(a, k, c.P) != [] && |Chunk(d, k, c.S())| == |Chunk(a, k, c.P)| + OVERHEAD
    ensures Off(k, c.P) >= |a| ==> Chunk(d, k, c.S()) == [] && |d| <= Off(k, c.S())
  {
    if Off(k, c.P) < |a| {
      BlockShape(c, d, a, k);
    } else {
      hide Off, Div, Mod;
      var q := Div(|a|, c.P);
      DivMod(|a|, c.P);
      if q < k { OffMono(q, k, c.S()); } else if k < q { OffMono(k, q, c.P); }
    }
  }

  // ---- the reference decoder --------------------------------------------------------------

  /** Opens the blocks one after the other, each under the next index. */
  function Decode(c: Codec, base: nat, d: seq<byte>): Option<seq<byte>>
    decreases |d|
  {
    if d == [] then Some([]) else
    var n := Min(c.S(), |d|);
    match OpenChunk(c, base, d[..n])
    case None => None
    case Some(p) =>
      if p == [] then None else
      match Decode(c, base + 1, d[n..])
      case None => None
      case Some(rest) => Some(p + rest)
  }

  lemma ChunkOfTail(s: seq<byte>, size: nat, i: nat)
    requires size <= |s|
    ensures Chunk(s[size..], i, size) == Chunk(s, i + 1, size)
  {
    OffStep(i, size);
  }

  lemma ChunkZero(s: seq<byte>, size: nat)
    ensures Chunk(s, 0, size) == s[..Min(size, |s|)]
  {
    OffStep(0, size);
  }

  lemma StoredLenTail(P: nat, n: nat)
    requires 0 < P <= n
    ensures StoredLen(P, n) == StoredLen(P, n - P) + P + OVERHEAD
  {
    hide Off, Div, Mod;
    var q := Div(n - P, P);
    DivMod(n - P, P);
    OffStep(q, P);
    DivIs(n, P, q + 1);
    OffStep(q, P + OVERHEAD);
  }

  lemma {:induction false} StoresDecodes(c: Codec, base: nat, d: seq<byte>, a: seq<byte>)
    requires StoresFrom(c, base, d, a)
    ensures Decode(c, base, d) == Some(a)
    decreases |d|
  {
    hide Off, Div, Mod, StoredLen, Chunk;
    OffStep(0, c.P);
    OffStep(0, c.S());
    StoredLenAt(c.P, |a|, 0);
    if a != [] {
      assert BlockAt(c, base, d, a, 0);
      ChunkZero(d, c.S());
      ChunkZero(a, c.P);
      var n, m := Min(c.S(), |d|), Min(c.P, |a|);
      var d', a' := d[n..], a[m..];
      if |a| <= c.P {
        assert d' == [] && a[..m] == a;
        assert Decode(c, base + 1, d') == Some([]);
        assert OpenChunk(c, base, d[..n]) == Some(a) && a + [] == a;
      } else {
        StoredLenTail(c.P, |a|);
        forall i: nat | Off(i, c.P) < |a'| ensures BlockAt(c, base + 1, d', a', i) {
          OffStep(i, c.P);
          assert BlockAt(c, base, d, a, i + 1);
          ChunkOfTail(d, c.S(), i);
          ChunkOfTail(a, c.P, i);
        }
        StoresDecodes(c, base + 1, d', a');
        assert a == a[..m] + a';
      }
    }
  }

  lemma {:induction false} DecodesStores(c: Codec, base: nat, d: seq<byte>)
    requires Decode(c, base, d).Some?
    ensures StoresFrom(c, base, d, Decode(c, base, d).value)
    decreases |d|
  {
    hide Off, Div, Mod, StoredLen, Chunk;
    OffStep(0, c.P);
    var a := Decode(c, base, d).value;
    if d == [] {
      StoredLenAt(c.P, 0, 0);
      OffStep(0, c.S());
    } else {
      var n := Min(c.S(), |d|);
      var p := OpenChunk(c, base, d[..n]).value;
      var d' := d[n..];
      DecodesStores(c, base + 1, d');
      var a' := Decode(c, base + 1, d').value;
      assert a == p + a';
      OffStep(0, c.S());
      StoredLenAt(c.P, |a|, 0);
      if |d| > c.S() {
        assert |p| == c.P;
        assert a[c.P..] == a';
        StoredLenTail(c.P, |a|);
      } else {
        assert d' == [] && a == p;
      }
      ChunkZero(d, c.S());
      ChunkZero(a, c.P);
      forall i: nat | Off(i, c.P) < |a| ensures BlockAt(c, base, d, a, i) {
        if i == 0 {
          assert a[..Min(c.P, |a|)] == p;
        } else if |d| <= c.S() {
          OffMono(0, i, c.P);
        } else {
          OffStep(i - 1, c.P);
          assert BlockAt(c, base + 1, d', a', i - 1);
          ChunkOfTail(d, c.S(), i - 1);
          ChunkOfTail(a, c.P, i - 1);
        }
      }
    }
  }

  /** The block-by-block relation and the sequential decoder agree in both directions. */
  lemma StoresIffDecodes(c: Codec, d: seq<byte>, a: seq<byte>)
    ensures Stores(c, d, a) <==> Decode(c, 0, d) == Some(a)
  {
    if Stores(c, d, a) { StoresDecodes(c, 0, d, a); }
    if Decode(c, 0, d) == Some(a) { DecodesStores(c, 0, d); }
  }

  // ---- position binding -------------------------------------------------------------------

  /** A nonce and what was sealed under it for block `j`. */
  ghost predicate SealedFor(c: Codec, j: nat, chunk: seq<byte>) {
    exists nonce: seq<byte>, p: seq<byte> :: |nonce| == NONCE_LEN && chunk == nonce + c.aead.seal(nonce, j, p)
  }

  /** In a stream that decodes every block opens in its place, and was sealed for it. */
  lemma SealedInPlace(c: Codec, d: seq<byte>, k: nat)
    requires Chunk(d, k, c.S()) != []
    ensures Decode(c, 0, d).Some? ==>
              && Off(k, c.P) < |Decode(c, 0, d).value|
              && OpenChunk(c, k, Chunk(d, k, c.S())).Some? && SealedFor(c, k, Chunk(d, k, c.S()))
  {
    hide Decode, Off, Stores, Chunk, Div, Mod;
    if Decode(c, 0, d).Some? {
      var a, chunk := Decode(c, 0, d).value, Chunk(d, k, c.S());
      StoresIffDecodes(c, d, a);
      BlockOrNone(c, d, a, k);
      var nonce, text := chunk[..NONCE_LEN], chunk[NONCE_LEN..];
      assert c.aead.open(nonce, k, text) == Some(Chunk(a, k, c.P));
      assert chunk == nonce + c.aead.seal(nonce, k, Chunk(a, k, c.P));
    }
  }

  /**
   * A block that was sealed for another place does not open, and a stream with it does not decode, if the
   * cipher tells the places apart.
   */
  lemma MisplacedBlock(c: Codec, d: seq<byte>, i: nat, j: nat)
    requires SealedFor(c, j, Chunk(d, i, c.S())) && c.aead.Binds(i, j)
    ensures OpenChunk(c, i, Chunk(d, i, c.S())) == None && Decode(c, 0, d) == None
  {
    hide Decode, Off, Chunk;
    var chunk := Chunk(d, i, c.S());
    var nonce: seq<byte>, p: seq<byte> :| |nonce| == NONCE_LEN && chunk == nonce + c.aead.seal(nonce, j, p);
    assert chunk[..NONCE_LEN] == nonce && chunk[NONCE_LEN..] == c.aead.seal(nonce, j, p);
    SealedInPlace(c, d, i);
  }

  /** The stored stream with two blocks in each other's place. */
  function Exchanged(d: seq<byte>, i: nat, j: nat, size: nat): seq<byte>
    requires Off(i, size) + size <= Off(j, size) && Off(j, size) + size <= |d|
  {
    Splice(Splice(d, Off(i, size), Chunk(d, j, size)), Off(j, size), Chunk(d, i, size))
  }

  /** Two full blocks cannot be exchanged unnoticed: what is stored no longer decodes. */
  lemma ExchangeShows(c: Codec, d: seq<byte>, a: seq<byte>, i: nat, j: nat)
    requires Stores(c, d, a) && i < j && Off(j, c.P) + c.P <= |a| && c.aead.Binds(i, j)
    ensures Off(i, c.S()) + c.S() <= Off(j, c.S()) && Off(j, c.S()) + c.S() <= |d|
    ensures Decode(c, 0, Exchanged(d, i, j, c.S())) == None
  {
    hide Decode, Off, Splice, StoredLen;
    OffMono(i, j, c.S());
    OffMono(i, j, c.P);
    BlockShape(c, d, a, j);
    StoresIffDecodes(c, d, a);
    SealedInPlace(c, d, j);
    var d1 := Splice(d, Off(i, c.S()), Chunk(d, j, c.S()));
    ChunkOfSplice(d, i, c.S(), Chunk(d, j, c.S()), i);
    ChunkOfSplice(d1, j, c.S(), Chunk(d, i, c.S()), i);
    MisplacedBlock(c, Exchanged(d, i, j, c.S()), i, j);
  }
}
