/** File names as bytes, and the special ones. */
module Names {
  import opened Bytes

  type Name = seq<byte>

  const SLASH: byte := 47
  const BACKSLASH: byte := 92
  const SPACE: byte := 32

  const DOT: Name := [46]
  const DOTDOT: Name := [46, 46]
  const SELF: Name := [36, 46]        // "$."
  const PARENT: Name := [36, 46, 46]  // "$.."

  /** A name that names something, and none of the links, under the caller's names or the stored ones. */
  predicate Ordinary(name: Name) {
    name != [] && name != DOT && name != DOTDOT && name != SELF && name != PARENT
  }

  function Replace(t: seq<byte>, from: byte, to: byte): (r: seq<byte>)
    ensures |r| == |t|
    ensures forall i :: 0 <= i < |t| ==> r[i] == if t[i] == from then to else t[i]
  {
    seq(|t|, i requires 0 <= i < |t| => if t[i] == from then to else t[i])
  }

  /** Separators in a name become spaces before it is sealed. */
  function Normalize(name: Name): Name {
    Replace(Replace(name, SLASH, SPACE), BACKSLASH, SPACE)
  }

  predicate HasSeparator(name: Name) {
    SLASH in name || BACKSLASH in name
  }

  /** Exactly the separators become spaces: bytes 47 and 92 become 32. */
  lemma NormalizeAt(name: Name, i: nat)
    requires i < |name|
    ensures |Normalize(name)| == |name|
    ensures Normalize(name)[i] == if name[i] == 47 || name[i] == 92 then 32 else name[i]
  {
  }

  /** No ordinary name comes to be listed under a directory's own links. */
  lemma NormalizeOrdinary(name: Name)
    requires Ordinary(name)
    ensures Ordinary(Normalize(name))
  {
    NormalizeGives(name, DOT);
    NormalizeGives(name, DOTDOT);
    NormalizeGives(name, SELF);
    NormalizeGives(name, PARENT);
  }

  lemma NormalizeGives(name: Name, x: Name)
    requires SPACE !in x
    ensures Normalize(name) == x ==> name == x
  {
    if Normalize(name) == x {
      forall i: nat | i < |name| ensures name[i] == x[i] {
        NormalizeAt(name, i);
        assert x[i] in x;
      }
    }
  }

  lemma NormalizeFixes(name: Name)
    ensures Normalize(name) == name <==> !HasSeparator(name)
  {
    var m := Normalize(name);
    if HasSeparator(name) {
      var i :| 0 <= i < |name| && (name[i] == SLASH || name[i] == BACKSLASH);
      assert m[i] != name[i];
    }
  }
}
