/** A directory's two indexes on disk, and the tree that all directories together describe. */
module Directories {
  import opened Bytes
  import opened Names

  const ROOT: nat := 1

  datatype Kind = RegularFile | Directory

  datatype FsError =
    | InvalidInput | InodeNotFound | InvalidInodeType | NotFound | AlreadyExists | NotEmpty
    | InvalidFileHandle | AlreadyOpenForWrite | MaxFilesizeExceeded | Io

  datatype FsResult<+T> = Success(value: T) | Failure(error: FsError)

  /** The file name of an entry in the HASH index: a digest, injective on ordinary names. */
  datatype HashKey = SelfKey | ParentKey | Digest(name: Name)

  /** The file name of an entry in the LS index: the sealed name, different for each nonce. */
  datatype EncName = EncSelf | EncParent | Sealed(name: Name, nonce: nat)

  datatype LsEntry = LsEntry(ino: nat, kind: Kind)

  /** The hash entry also keeps the sealed name, to find the other index's entry again. */
  datatype HashEntry = HashEntry(ino: nat, kind: Kind, enc: EncName)

  datatype Dir = Dir(ls: map<EncName, LsEntry>, hash: map<HashKey, HashEntry>)

  datatype Contents = FileBody | DirBody(dir: Dir)

  function HashFileName(name: Name): HashKey {
    if name == SELF || name == DOT then SelfKey
    else if name == PARENT || name == DOTDOT then ParentKey
    else Digest(name)
  }

  function EncryptFileName(name: Name, nonce: nat): EncName {
    if name == SELF || name == DOT then EncSelf
    else if name == PARENT || name == DOTDOT then EncParent
    else Sealed(Normalize(name), nonce)
  }

  function DecryptFileName(enc: EncName): Name {
    match enc
    case EncSelf => DOT
    case EncParent => DOTDOT
    case Sealed(name, _) => name
  }

  // ---- one directory ----------------------------------------------------------------------

  /** The sealed name stored under a hash key is one of that key's. */
  predicate Matches(key: HashKey, enc: EncName) {
    match key
    case SelfKey => enc == EncSelf
    case ParentKey => enc == EncParent
    case Digest(name) => enc.Sealed? && enc.name == Normalize(name)
  }

  /**
   * The indexes are in bijection through the stored sealed name, with equal inode and kind; only ordinary
   * names have a digest there. The directory names itself, and its parent unless it is the root.
   */
  ghost predicate Indexed(i: nat, d: Dir) {
    && (forall k :: k in d.hash ==>
          Matches(k, d.hash[k].enc) && d.hash[k].enc in d.ls &&
          d.ls[d.hash[k].enc] == LsEntry(d.hash[k].ino, d.hash[k].kind))
    && (forall k :: k in d.hash && k.Digest? ==> Ordinary(k.name))
    && (forall k, l :: k in d.hash && l in d.hash && d.hash[k].enc == d.hash[l].enc ==> k == l)
    && (forall e :: e in d.ls ==> exists k :: k in d.hash && d.hash[k].enc == e)
    && SelfKey in d.hash && d.hash[SelfKey].ino == i && d.hash[SelfKey].kind == Directory
    && (ParentKey in d.hash <==> i != ROOT)
    && (ParentKey in d.hash ==> d.hash[ParentKey].kind == Directory)
  }

  function AddTo(d: Dir, key: HashKey, enc: EncName, ino: nat, kind: Kind): Dir {
    Dir(d.ls[enc := LsEntry(ino, kind)], d.hash[key := HashEntry(ino, kind, enc)])
  }

  function RemoveFrom(d: Dir, key: HashKey): Dir {
    if key !in d.hash then d else Dir(d.ls - {d.hash[key].enc}, d.hash - {key})
  }

  datatype Node = Node(ino: nat, kind: Kind)

  /** The named children. */
  function Entries(d: Dir): map<Name, Node> {
    map k | k in d.hash && k.Digest? :: k.name := Node(d.hash[k].ino, d.hash[k].kind)
  }

  lemma EntriesAt(d: Dir, name: Name)
    ensures name in Entries(d) <==> Digest(name) in d.hash
    ensures name in Entries(d) ==> Entries(d)[name] == Node(d.hash[Digest(name)].ino, d.hash[Digest(name)].kind)
  {
    if Digest(name) in d.hash { assert Digest(name).name in Entries(d); }
  }

  /** Only ordinary names have entries. */
  lemma OrdinaryEntry(i: nat, d: Dir, name: Name)
    requires Indexed(i, d)
    ensures name in Entries(d) ==> Ordinary(name)
  {
    EntriesAt(d, name);
  }

  lemma AddToIndexed(i: nat, d: Dir, key: HashKey, enc: EncName, ino: nat, kind: Kind)
    requires Indexed(i, d) && Matches(key, enc)
    requires key !in d.hash && enc !in d.ls && key != ParentKey && (key.Digest? ==> Ordinary(key.name))
    ensures Indexed(i, AddTo(d, key, enc, ino, kind))
  {
    var d' := AddTo(d, key, enc, ino, kind);
    forall e | e in d'.ls ensures exists k :: k in d'.hash && d'.hash[k].enc == e {
      if e == enc {
        assert d'.hash[key].enc == e;
      } else {
        var k :| k in d.hash && d.hash[k].enc == e;
        assert d'.hash[k].enc == e;
      }
    }
  }

  lemma AddToEntries(d: Dir, name: Name, enc: EncName, ino: nat, kind: Kind)
    ensures Entries(AddTo(d, Digest(name), enc, ino, kind)) == Entries(d)[name := Node(ino, kind)]
  {
    var d' := AddTo(d, Digest(name), enc, ino, kind);
    var l, r := Entries(d'), Entries(d)[name := Node(ino, kind)];
    forall n: Name ensures (n in l <==> n in r) && (n in l ==> l[n] == r[n]) {
      EntriesAt(d, n);
      EntriesAt(d', n);
    }
    assert l == r;
  }

  /** Writing the parent link again keeps everything else. */
  lemma RelinkIndexed(i: nat, d: Dir, parent: nat)
    requires Indexed(i, d) && i != ROOT
    ensures Indexed(i, AddTo(d, ParentKey, EncParent, parent, Directory))
    ensures Entries(AddTo(d, ParentKey, EncParent, parent, Directory)) == Entries(d)
  {
    hide Entries, Normalize, Ordinary;
    RelinkEntries(d, parent);
    var d' := AddTo(d, ParentKey, EncParent, parent, Directory);
    assert forall k :: k in d'.hash && k != ParentKey ==> k in d.hash && d'.hash[k] == d.hash[k] && d.hash[k].enc != EncParent;
    forall e | e in d'.ls ensures exists k :: k in d'.hash && d'.hash[k].enc == e {
      if e == EncParent {
        assert d'.hash[ParentKey].enc == e;
      } else {
        var k :| k in d.hash && d.hash[k].enc == e;
        assert d'.hash[k].enc == e;
      }
    }
  }

  lemma RelinkEntries(d: Dir, parent: nat)
    ensures Entries(AddTo(d, ParentKey, EncParent, parent, Directory)) == Entries(d)
  {
    var d' := AddTo(d, ParentKey, EncParent, parent, Directory);
    forall n: Name ensures (n in Entries(d') <==> n in Entries(d)) && (n in Entries(d) ==> Entries(d')[n] == Entries(d)[n]) {
      EntriesAt(d, n);
      EntriesAt(d', n);
    }
  }

  lemma RemoveFromIndexed(i: nat, d: Dir, name: Name)
    requires Indexed(i, d) && Digest(name) in d.hash
    ensures Indexed(i, RemoveFrom(d, Digest(name)))
  {
    hide Normalize, Ordinary;
    var key := Digest(name);
    var d' := RemoveFrom(d, key);
    forall e | e in d'.ls ensures exists k :: k in d'.hash && d'.hash[k].enc == e {
      var k :| k in d.hash && d.hash[k].enc == e;
      assert d'.hash[k].enc == e;
    }
  }

  lemma RemoveFromEntries(d: Dir, name: Name)
    ensures Entries(RemoveFrom(d, Digest(name))) == Entries(d) - {name}
  {
    var d' := RemoveFrom(d, Digest(name));
    forall n: Name
      ensures (n in Entries(d') <==> n in Entries(d) - {name}) && (n in Entries(d') ==> Entries(d')[n] == Entries(d)[n])
    {
      EntriesAt(d, n);
      EntriesAt(d', n);
    }
  }

  /** A new directory: itself and its parent. */
  function NewDir(i: nat, parent: nat): Dir {
    AddTo(AddTo(Dir(map[], map[]), SelfKey, EncSelf, i, Directory), ParentKey, EncParent, parent, Directory)
  }

  lemma NewDirIndexed(i: nat, parent: nat)
    requires i != ROOT
    ensures Indexed(i, NewDir(i, parent)) && Entries(NewDir(i, parent)) == map[]
    ensures NewDir(i, parent).hash[ParentKey].ino == parent
  {
    var d := NewDir(i, parent);
    assert d.hash[SelfKey].enc == EncSelf && d.hash[ParentKey].enc == EncParent;
    assert forall k :: k in d.hash ==> k == SelfKey || k == ParentKey;
  }

  /** Children as counted by the LS index, without the links to itself and its parent. */
  function Len(i: nat, d: Dir): int {
    |d.ls| - if i == ROOT then 1 else 2
  }

  function OwnLinks(i: nat): (s: set<EncName>)
    ensures |s| == if i == ROOT then 1 else 2
  {
    if i == ROOT then {EncSelf} else {EncSelf, EncParent}
  }

  lemma OwnLinksListed(i: nat, d: Dir)
    requires Indexed(i, d)
    ensures OwnLinks(i) <= d.ls.Keys
    ensures d.ls.Keys <= OwnLinks(i) <==> Entries(d) == map[]
  {
    assert d.hash[SelfKey].enc == EncSelf;
    if i != ROOT { assert d.hash[ParentKey].enc == EncParent; }
    forall e | e in d.ls && e !in OwnLinks(i) ensures Entries(d) != map[] {
      var k :| k in d.hash && d.hash[k].enc == e;
      EntriesAt(d, k.name);
    }
    forall n | n in Entries(d) ensures d.hash[Digest(n)].enc in d.ls && d.hash[Digest(n)].enc !in OwnLinks(i) {
      EntriesAt(d, n);
    }
    if Entries(d) != map[] { var n :| n in Entries(d); }
  }

  lemma SubsetSize<T>(s: set<T>, t: set<T>)
    requires s <= t
    ensures |s| <= |t|
    ensures |s| == |t| <==> t <= s
  {
    assert t == s + (t - s);
    assert |t| == |s| + |t - s|;
    assert t - s == {} <==> t <= s;
  }

  /** The count is zero exactly when there are no named children. */
  lemma LenZeroIffEmpty(i: nat, d: Dir)
    requires Indexed(i, d)
    ensures Len(i, d) >= 0
    ensures Len(i, d) == 0 <==> Entries(d) == map[]
  {
    hide Indexed, Entries;
    OwnLinksListed(i, d);
    SubsetSize(OwnLinks(i), d.ls.Keys);
  }

  lemma {:induction false} InjectiveSize<A, B>(m: map<A, B>)
    requires forall x, y :: x in m && y in m && m[x] == m[y] ==> x == y
    ensures |m.Values| == |m.Keys|
    decreases |m.Keys|
  {
    if m.Keys == {} {
      assert m.Values == {};
    } else {
      var x :| x in m.Keys;
      var rest := m - {x};
      assert rest.Keys == m.Keys - {x};
      forall v ensures v in m.Values <==> v in rest.Values + {m[x]} {
        if v in m.Values {
          var y :| y in m && m[y] == v;
          if y != x { assert rest[y] == v; }
        }
      }
      assert m.Values == rest.Values + {m[x]};
      assert forall y :: y in rest ==> rest[y] != m[x];
      InjectiveSize(rest);
    }
  }

  /** As many entries in LS as keys in HASH. */
  lemma SameSize(i: nat, d: Dir)
    requires Indexed(i, d)
    ensures |d.ls| == |d.hash|
  {
    var encs := map k | k in d.hash :: d.hash[k].enc;
    assert encs.Keys == d.hash.Keys;
    forall e ensures e in encs.Values <==> e in d.ls {
      if e in d.ls {
        var k :| k in d.hash && d.hash[k].enc == e;
        assert encs[k] == e;
      }
    }
    assert encs.Values == d.ls.Keys;
    InjectiveSize(encs);
  }

  lemma KeysAre(i: nat, d: Dir)
    requires Indexed(i, d)
    ensures d.hash.Keys - OwnKeys(i) == set n | n in Entries(d) :: Digest(n)
    ensures OwnKeys(i) <= d.hash.Keys
  {
    forall k ensures k in d.hash.Keys - OwnKeys(i) <==> k.Digest? && k.name in Entries(d) {
      if k.Digest? { EntriesAt(d, k.name); }
    }
  }

  function OwnKeys(i: nat): (s: set<HashKey>)
    ensures |s| == if i == ROOT then 1 else 2
  {
    if i == ROOT then {SelfKey} else {SelfKey, ParentKey}
  }

  /** The count is the number of named children. */
  lemma LenCounts(i: nat, d: Dir)
    requires Indexed(i, d)
    ensures Len(i, d) == |Entries(d)|
  {
    hide Indexed, Entries;
    SameSize(i, d);
    KeysAre(i, d);
    var digests := map n | n in Entries(d) :: Digest(n);
    assert digests.Keys == Entries(d).Keys;
    assert digests.Values == d.hash.Keys - OwnKeys(i);
    InjectiveSize(digests);
    assert |d.hash.Keys| == |d.hash.Keys - OwnKeys(i)| + |OwnKeys(i)| by {
      SubsetSize(OwnKeys(i), d.hash.Keys);
    }
  }
}
