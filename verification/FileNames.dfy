/** Sealed file names: a name is encrypted, written in unpadded base64, and made safe for a path. */
module FileNames {
  import opened Bytes
  import opened Layout
  import opened Names
  import opened StreamUtil

  type sextet = x: int | 0 <= x < 64

  const BAR: byte := 124

  // ---- base64, section 4 of RFC 4648, without padding ---------------------------------------

  /** The standard alphabet: letters, digits, plus and slash. */
  function ToSymbol(s: sextet): (b: byte)
    ensures b as int as char ==
            if s < 26 then 'A' + s as char
            else if s < 52 then 'a' + (s - 26) as char
            else if s < 62 then '0' + (s - 52) as char
            else if s == 62 then '+' else '/'
  {
    if s < 26 then (65 + s) as byte
    else if s < 52 then (97 + s - 26) as byte
    else if s < 62 then (48 + s - 52) as byte
    else if s == 62 then 43
    else SLASH
  }

  function FromSymbol(b: byte): Option<sextet> {
    var x := b as int;
    if 65 <= x < 91 then Some(x - 65)
    else if 97 <= x < 123 then Some(x - 97 + 26)
    else if 48 <= x < 58 then Some(x - 48 + 52)
    else if x == 43 then Some(62)
    else if b == SLASH then Some(63)
    else None
  }

  function Sextet0(a: byte): sextet { a as int / 4 }
  function Sextet1(a: byte, b: byte): sextet { a as int % 4 * 16 + b as int / 16 }
  function Sextet2(b: byte, c: byte): sextet { b as int % 16 * 4 + c as int / 64 }
  function Sextet3(c: byte): sextet { c as int % 64 }

  function First(x: sextet, y: sextet): byte {
    var v: int := x * 4;
    (v + y / 16) as byte
  }

  function Second(y: sextet, z: sextet): byte {
    var v: int := y % 16 * 16;
    (v + z / 4) as byte
  }

  function Third(z: sextet, w: sextet): byte {
    var v: int := z % 4 * 64;
    (v + w) as byte
  }

  lemma GroupBack(a: byte, b: byte, c: byte)
    ensures First(Sextet0(a), Sextet1(a, b)) == a
    ensures Second(Sextet1(a, b), Sextet2(b, c)) == b
    ensures Third(Sextet2(b, c), Sextet3(c)) == c
    ensures Sextet1(a, 0) % 16 == 0 && Sextet2(b, 0) % 4 == 0
  {
  }

  lemma GroupForth(x: sextet, y: sextet, z: sextet, w: sextet)
    ensures Sextet0(First(x, y)) == x
    ensures Sextet1(First(x, y), Second(y, z)) == y
    ensures Sextet2(Second(y, z), Third(z, w)) == z
    ensures Sextet3(Third(z, w)) == w
    ensures y % 16 == 0 ==> Sextet1(First(x, y), 0) == y
    ensures z % 4 == 0 ==> Sextet2(Second(y, z), 0) == z
  {
  }

  /** The four sextets of three bytes are the digits of one 24-bit number, the first byte and sextet highest. */
  lemma GroupNumber(a: byte, b: byte, c: byte)
    ensures (a as int * 256 + b as int) * 256 + c as int ==
            ((Sextet0(a) as int * 64 + Sextet1(a, b) as int) * 64 + Sextet2(b, c) as int) * 64 + Sextet3(c) as int
  {
  }

  /** Three bytes as four sextets; one or two leftover bytes as two or three, the last filled with zero bits. */
  function Sextets(b: seq<byte>): seq<sextet>
    decreases |b|
  {
    if |b| == 0 then []
    else if |b| == 1 then [Sextet0(b[0]), Sextet1(b[0], 0)]
    else if |b| == 2 then [Sextet0(b[0]), Sextet1(b[0], b[1]), Sextet2(b[1], 0)]
    else [Sextet0(b[0]), Sextet1(b[0], b[1]), Sextet2(b[1], b[2]), Sextet3(b[2])] + Sextets(b[3..])
  }

  /** The inverse; a lone sextet and leftover bits that are not zero are refused. */
  function Unsextets(s: seq<sextet>): Option<seq<byte>>
    decreases |s|
  {
    if |s| == 0 then Some([])
    else if |s| == 1 then None
    else if |s| == 2 then
      if s[1] % 16 != 0 then None else Some([First(s[0], s[1])])
    else if |s| == 3 then
      if s[2] % 4 != 0 then None else Some([First(s[0], s[1]), Second(s[1], s[2])])
    else
      match Unsextets(s[4..])
      case None => None
      case Some(rest) => Some([First(s[0], s[1]), Second(s[1], s[2]), Third(s[2], s[3])] + rest)
  }

  function Symbols(s: seq<sextet>): (r: seq<byte>)
    ensures |r| == |s|
  {
    seq(|s|, i requires 0 <= i < |s| => ToSymbol(s[i]))
  }

  function Unsymbols(t: seq<byte>): Option<seq<sextet>> {
    if t == [] then Some([])
    else
      match FromSymbol(t[0])
      case None => None
      case Some(x) =>
        match Unsymbols(t[1..])
        case None => None
        case Some(rest) => Some([x] + rest)
  }

  function Encode64(b: seq<byte>): seq<byte> {
    Symbols(Sextets(b))
  }

  function Decode64(t: seq<byte>): Option<seq<byte>> {
    match Unsymbols(t)
    case None => None
    case Some(s) => Unsextets(s)
  }

  lemma SymbolsInverse(x: sextet, b: byte)
    ensures FromSymbol(ToSymbol(x)) == Some(x)
    ensures FromSymbol(b).Some? ==> ToSymbol(FromSymbol(b).value) == b
  {
  }

  lemma {:induction false} UnsymbolsOf(s: seq<sextet>)
    ensures Unsymbols(Symbols(s)) == Some(s)
    decreases |s|
  {
    if s != [] {
      SymbolsInverse(s[0], 0);
      assert Symbols(s)[1..] == Symbols(s[1..]);
      UnsymbolsOf(s[1..]);
      assert [s[0]] + s[1..] == s;
    }
  }

  lemma {:induction false} SymbolsOf(t: seq<byte>)
    requires Unsymbols(t).Some?
    ensures Symbols(Unsymbols(t).value) == t
    decreases |t|
  {
    if t != [] {
      SymbolsInverse(0, t[0]);
      SymbolsOf(t[1..]);
      var s := Unsymbols(t).value;
      assert s[1..] == Unsymbols(t[1..]).value;
      assert Symbols(s)[1..] == Symbols(s[1..]);
    }
  }

  lemma {:induction false} UnsextetsOf(b: seq<byte>)
    ensures Unsextets(Sextets(b)) == Some(b)
    decreases |b|
  {
    hide First, Second, Third, Sextet0, Sextet1, Sextet2, Sextet3;
    if |b| == 1 {
      GroupBack(b[0], 0, 0);
      assert b == [b[0]];
    } else if |b| == 2 {
      GroupBack(b[0], b[1], 0);
      assert b == [b[0], b[1]];
    } else if |b| >= 3 {
      GroupBack(b[0], b[1], b[2]);
      UnsextetsOf(b[3..]);
      assert Sextets(b)[4..] == Sextets(b[3..]);
      assert [b[0], b[1], b[2]] + b[3..] == b;
    }
  }

  lemma {:induction false} SextetsOf(s: seq<sextet>)
    requires Unsextets(s).Some?
    ensures Sextets(Unsextets(s).value) == s
    decreases |s|
  {
    hide First, Second, Third, Sextet0, Sextet1, Sextet2, Sextet3;
    if |s| == 2 {
      GroupForth(s[0], s[1], 0, 0);
      assert s == [s[0], s[1]];
    } else if |s| == 3 {
      GroupForth(s[0], s[1], s[2], 0);
      assert s == [s[0], s[1], s[2]];
    } else if |s| >= 4 {
      GroupForth(s[0], s[1], s[2], s[3]);
      SextetsOf(s[4..]);
      var rest := Unsextets(s[4..]).value;
      assert Unsextets(s).value[3..] == rest;
      assert [s[0], s[1], s[2], s[3]] + s[4..] == s;
    }
  }

  /** Encoding and decoding are inverse both ways: no two texts decode to the same bytes. */
  lemma Base64Inverse(b: seq<byte>, t: seq<byte>)
    ensures Decode64(t) == Some(b) <==> t == Encode64(b)
  {
    UnsymbolsOf(Sextets(b));
    UnsextetsOf(b);
    if Decode64(t).Some? {
      SymbolsOf(t);
      SextetsOf(Unsymbols(t).value);
    }
  }

  // ---- names --------------------------------------------------------------------------------

  function DecryptFileName(c: Codec, enc: seq<byte>): Option<seq<byte>> {
    match Decode64(Replace(enc, BAR, SLASH))
    case None => None
    case Some(d) => Decode(c, 0, d)
  }

  /** Seals a name; its bytes come back normalised, whatever the nonces were. */
  method EncryptFileName(c: Codec, name: Name) returns (enc: seq<byte>)
    ensures name == SELF || name == PARENT ==> enc == name
    ensures name == DOT || name == DOTDOT ==> enc == [36] + name
    ensures Ordinary(name) || name == [] ==>
              && DecryptFileName(c, enc) == Some(Normalize(name))
              && SLASH !in enc && enc != SELF && enc != PARENT
              && (enc == [] <==> name == [])
    ensures Ordinary(name) && !HasSeparator(name) ==> DecryptFileName(c, enc) == Some(name)
  {
    if name == SELF || name == PARENT { return name; }
    if name == DOT || name == DOTDOT { return [36] + name; }
    var d := Encrypt(c, [Put(Normalize(name))]);
    DataOfOne(Normalize(name));
    enc := Replace(Encode64(d), SLASH, BAR);
    SealedText(c, d, enc, Normalize(name));
    NormalizeFixes(name);
  }

  lemma DataOfOne(x: seq<byte>)
    ensures Data([Put(x)]) == x
  {
    assert [Put(x)][1..] == [];
  }

  /** A sealed name is the base64 text with each slash as a bar: letters, digits, plus and bar. */
  lemma SealedText(c: Codec, d: seq<byte>, enc: seq<byte>, plain: seq<byte>)
    requires Decode(c, 0, d) == Some(plain) && enc == Replace(Encode64(d), SLASH, BAR)
    ensures DecryptFileName(c, enc) == Some(plain)
    ensures SLASH !in enc && enc != SELF && enc != PARENT
    ensures forall i :: 0 <= i < |enc| ==>
              enc[i] == if Encode64(d)[i] as int as char == '/' then 124 else Encode64(d)[i]
    ensures enc == [] <==> plain == []
  {
    hide Sextets, Decode;
    var t := Encode64(d);
    assert forall i :: 0 <= i < |t| ==> t[i] != BAR && t[i] != 36;
    assert Replace(enc, BAR, SLASH) == t;
    Base64Inverse(d, t);
    assert enc != [] ==> enc[0] != 36;
    EmptySealed(c, d);
  }

  /** Texts of different stored forms differ: a fresh nonce makes a fresh name. */
  lemma SealedTextsDiffer(d: seq<byte>, e: seq<byte>)
    ensures Replace(Encode64(d), SLASH, BAR) == Replace(Encode64(e), SLASH, BAR) <==> d == e
  {
    hide Sextets;
    var t, u := Encode64(d), Encode64(e);
    assert forall i :: 0 <= i < |t| ==> t[i] != BAR;
    assert forall i :: 0 <= i < |u| ==> u[i] != BAR;
    assert Replace(Replace(t, SLASH, BAR), BAR, SLASH) == t && Replace(Replace(u, SLASH, BAR), BAR, SLASH) == u;
    Base64Inverse(d, t);
    Base64Inverse(e, u);
  }

  lemma EmptySealed(c: Codec, d: seq<byte>)
    requires Decode(c, 0, d).Some?
    ensures d == [] <==> Decode(c, 0, d) == Some([])
    ensures Encode64(d) == [] <==> d == []
  {
  }
}
