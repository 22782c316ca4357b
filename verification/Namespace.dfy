/** The directory operations of the file system over inode files, contents and their caches. */
module Namespace {
  import opened Bytes
  import opened Names
  import opened Directories
  import opened Attributes

  type Store = map<nat, Contents>

  predicate IsDirIn(c: Store, d: nat) {
    d in c && c[d].DirBody?
  }

  function Insert(c: Store, d: nat, name: Name, nonce: nat, ino: nat, kind: Kind): Store {
    if !IsDirIn(c, d) then c
    else c[d := DirBody(AddTo(c[d].dir, HashFileName(name), EncryptFileName(name, nonce), ino, kind))]
  }

  function Erase(c: Store, d: nat, name: Name): Store {
    if !IsDirIn(c, d) then c else c[d := DirBody(RemoveFrom(c[d].dir, HashFileName(name)))]
  }

  /** The reference view: each directory's named children. */
  type Forest = map<nat, map<Name, Node>>

  function Tree(c: Store): Forest {
    map d | d in c && c[d].DirBody? :: Entries(c[d].dir)
  }

  /** Each directory's parent link; the root has none. */
  function Up(c: Store): map<nat, nat> {
    map d | d in c && c[d].DirBody? && ParentKey in c[d].dir.hash :: c[d].dir.hash[ParentKey].ino
  }

  ghost predicate Stored(inodes: map<nat, Attr>, c: Store) {
    && inodes.Keys == c.Keys
    && IsDirIn(c, ROOT)
    && forall i :: i in c ==> (inodes[i].kind == Directory <==> c[i].DirBody?)
  }

  ghost predicate AllIndexed(c: Store) {
    forall d :: IsDirIn(c, d) ==> Indexed(d, c[d].dir)
  }

  /** The named entry of a directory, if it has it. */
  function At(t: Forest, d: nat, n: Name): Option<Node> {
    if d in t && n in t[d] then Some(t[d][n]) else None
  }

  /** Every named entry points to an existing inode of its kind, never to the root. */
  ghost predicate Linked(inodes: map<nat, Attr>, t: Forest) {
    forall d, n :: At(t, d, n).Some? ==>
      var x := At(t, d, n).value;
      x.ino in inodes && x.ino != ROOT && inodes[x.ino].kind == x.kind
  }

  /** No inode has two named entries. */
  ghost predicate Single(t: Forest) {
    forall d, n, e, m :: At(t, d, n).Some? && At(t, e, m).Some? && At(t, d, n).value.ino == At(t, e, m).value.ino ==>
      d == e && n == m
  }

  /** A directory's parent link leads to the directory that holds its entry. */
  ghost predicate UpLinked(t: Forest, up: map<nat, nat>) {
    forall d, n :: At(t, d, n).Some? && At(t, d, n).value.kind == Directory ==>
      At(t, d, n).value.ino in up && up[At(t, d, n).value.ino] == d
  }

  ghost predicate Shaped(inodes: map<nat, Attr>, t: Forest, up: map<nat, nat>) {
    Linked(inodes, t) && Single(t) && UpLinked(t, up)
  }

  ghost predicate Sound(inodes: map<nat, Attr>, c: Store) {
    Stored(inodes, c) && AllIndexed(c) && Shaped(inodes, Tree(c), Up(c))
  }

  /** No sealed name under this nonce is stored anywhere or remembered from a listing. */
  predicate FreshNonce(c: Store, metaCache: map<(nat, EncName), LsEntry>, nonce: nat) {
    && (forall d | d in c && c[d].DirBody? :: forall e | e in c[d].dir.ls :: e.Sealed? ==> e.nonce != nonce)
    && (forall p | p in metaCache :: p.1.Sealed? ==> p.1.nonce != nonce)
  }

  lemma TreeDirs(c: Store, d: nat)
    ensures d in Tree(c) <==> IsDirIn(c, d)
  {
  }

  // ---- what each change does to the tree ---------------------------------------------------

  /** Replacing one directory's indexes touches only its own place in the tree. */
  lemma ReplaceDir(c: Store, d: nat, x: Dir)
    requires AllIndexed(c) && Indexed(d, x) && (d in c ==> c[d].DirBody?)
    ensures var c' := c[d := DirBody(x)];
            && AllIndexed(c')
            && Tree(c') == Tree(c)[d := Entries(x)]
            && Up(c') == if ParentKey in x.hash then Up(c)[d := x.hash[ParentKey].ino] else Up(c) - {d}
  {
    hide Indexed, Entries;
  }

  lemma InsertTree(c: Store, d: nat, name: Name, nonce: nat, ino: nat, kind: Kind)
    requires AllIndexed(c) && IsDirIn(c, d) && Ordinary(name)
    requires Digest(name) !in c[d].dir.hash && EncryptFileName(name, nonce) !in c[d].dir.ls
    ensures var c' := Insert(c, d, name, nonce, ino, kind);
            && AllIndexed(c') && Up(c') == Up(c)
            && Tree(c') == Tree(c)[d := Tree(c)[d][name := Node(ino, kind)]]
  {
    hide Indexed, Entries, AllIndexed;
    IndexedAt(c, d);
    AddToIndexed(d, c[d].dir, Digest(name), EncryptFileName(name, nonce), ino, kind);
    AddToEntries(c[d].dir, name, EncryptFileName(name, nonce), ino, kind);
    ReplaceDir(c, d, AddTo(c[d].dir, Digest(name), EncryptFileName(name, nonce), ino, kind));
  }

  lemma IndexedAt(c: Store, d: nat)
    requires AllIndexed(c) && IsDirIn(c, d)
    ensures Indexed(d, c[d].dir)
  {
  }

  lemma EraseTree(c: Store, d: nat, name: Name)
    requires AllIndexed(c) && IsDirIn(c, d) && Ordinary(name) && Digest(name) in c[d].dir.hash
    ensures var c' := Erase(c, d, name);
            && AllIndexed(c') && Up(c') == Up(c)
            && Tree(c') == Tree(c)[d := Tree(c)[d] - {name}]
  {
    hide Indexed, Entries, AllIndexed;
    IndexedAt(c, d);
    RemoveFromIndexed(d, c[d].dir, name);
    RemoveFromEntries(c[d].dir, name);
    ReplaceDir(c, d, RemoveFrom(c[d].dir, Digest(name)));
  }

  lemma RelinkTree(c: Store, d: nat, nonce: nat, parent: nat)
    requires AllIndexed(c) && IsDirIn(c, d) && d != ROOT
    ensures var c' := Insert(c, d, PARENT, nonce, parent, Directory);
            AllIndexed(c') && Up(c') == Up(c)[d := parent] && Tree(c') == Tree(c)
  {
    hide Indexed, Entries, AllIndexed;
    IndexedAt(c, d);
    RelinkIndexed(d, c[d].dir, parent);
    ReplaceDir(c, d, AddTo(c[d].dir, ParentKey, EncParent, parent, Directory));
  }

  lemma AddBodyTree(c: Store, ino: nat, kind: Kind, parent: nat)
    requires AllIndexed(c) && ino !in c && ino != ROOT
    ensures var c' := c[ino := BodyFor(kind, ino, parent)];
            && AllIndexed(c')
            && Tree(c') == (if kind == Directory then Tree(c)[ino := map[]] else Tree(c))
            && Up(c') == (if kind == Directory then Up(c)[ino := parent] else Up(c))
  {
    hide Indexed, Entries;
    if kind == Directory {
      NewDirIndexed(ino, parent);
      ReplaceDir(c, ino, NewDir(ino, parent));
    }
  }

  lemma DropBodyTree(c: Store, ino: nat)
    requires AllIndexed(c)
    ensures AllIndexed(c - {ino}) && Tree(c - {ino}) == Tree(c) - {ino} && Up(c - {ino}) == Up(c) - {ino}
  {
    hide Indexed, Entries;
  }

  // ---- the operations on trees --------------------------------------------------------------

  function BodyFor(kind: Kind, ino: nat, parent: nat): Contents {
    if kind == RegularFile then FileBody else DirBody(NewDir(ino, parent))
  }

  function TreeCreated(t: Forest, parent: nat, name: Name, node: Node): Forest
    requires parent in t
  {
    (if node.kind == Directory then t[node.ino := map[]] else t)[parent := t[parent][name := node]]
  }

  function TreeRemoved(t: Forest, parent: nat, name: Name): Forest
    requires At(t, parent, name).Some?
  {
    t[parent := t[parent] - {name}] - {t[parent][name].ino}
  }

  function TreeMoved(t: Forest, parent: nat, name: Name, newParent: nat, newName: Name): Forest
    requires At(t, parent, name).Some? && newParent in t
  {
    var t1 := t[parent := t[parent] - {name}];
    t1[newParent := t1[newParent][newName := t[parent][name]]]
  }

  /** Creating adds one entry, and a directory without entries if it creates one; all others stay. */
  lemma CreatedAt(t: Forest, parent: nat, name: Name, node: Node)
    requires parent in t && node.ino !in t
    ensures var t' := TreeCreated(t, parent, name, node);
            && t'.Keys == t.Keys + (if node.kind == Directory then {node.ino} else {})
            && forall d, n :: At(t', d, n) == if d == parent && n == name then Some(node) else At(t, d, n)
  {
  }

  /** Removing takes away one entry, and the directory it names, which has none; all others stay. */
  lemma RemovedAt(t: Forest, parent: nat, name: Name)
    requires At(t, parent, name).Some?
    requires var i := t[parent][name].ino; i in t ==> t[i] == map[]
    ensures var t' := TreeRemoved(t, parent, name);
            && t'.Keys == t.Keys - {t[parent][name].ino}
            && forall d, n :: At(t', d, n) == if d == parent && n == name then None else At(t, d, n)
  {
  }

  /** Moving takes an entry from one place to another, over what is there; all others stay. */
  lemma MovedAt(t: Forest, parent: nat, name: Name, newParent: nat, newName: Name)
    requires At(t, parent, name).Some? && newParent in t
    ensures var t' := TreeMoved(t, parent, name, newParent, newName);
            && t'.Keys == t.Keys
            && forall d, n :: At(t', d, n) == if d == newParent && n == newName then At(t, parent, name)
                                              else if d == parent && n == name then None else At(t, d, n)
  {
  }

  /** Something has an entry in directory `d`. */
  ghost predicate HasChildren(t: Forest, d: nat) {
    exists n :: At(t, d, n).Some?
  }

  lemma ChildrenIs(t: Forest, d: nat)
    ensures HasChildren(t, d) <==> d in t && t[d] != map[]
  {
    if d in t && t[d] != map[] {
      var n :| n in t[d];
      assert At(t, d, n).Some?;
    }
  }

  /** Only directories have children. */
  lemma FilesHaveNone(inodes: map<nat, Attr>, c: Store, d: nat, n: Name)
    requires Sound(inodes, c) && Ordinary(n) && At(Tree(c), d, n).Some?
    ensures var x := At(Tree(c), d, n).value; HasChildren(Tree(c), x.ino) ==> x.kind == Directory
  {
    EntryFacts(inodes, c, d, n);
    hide Indexed, Entries, AllIndexed;
    ChildrenIs(Tree(c), At(Tree(c), d, n).value.ino);
  }

  /** Which failure, if any, a removal by name meets before it changes anything. */
  function RemoveError(t: Forest, parent: nat, name: Name, kind: Kind): Option<FsError> {
    if parent !in t then Some(InvalidInodeType)
    else if At(t, parent, name).None? then Some(NotFound)
    else
      var node := At(t, parent, name).value;
      if node.kind != kind then Some(InvalidInodeType)
      else if kind == Directory && node.ino in t && t[node.ino] != map[] then Some(NotEmpty)
      else None
  }

  /** Which failure, if any, a move meets before it changes anything. */
  function RenameError(inodes: set<nat>, t: Forest, parent: nat, name: Name, newParent: nat, newName: Name): Option<FsError> {
    if parent !in inodes then Some(InodeNotFound)
    else if parent !in t then Some(InvalidInodeType)
    else if newParent !in inodes then Some(InodeNotFound)
    else if newParent !in t then Some(InvalidInodeType)
    else if At(t, parent, name).None? then Some(NotFound)
    else if parent == newParent && name == newName then None
    else if At(t, newParent, newName).Some? && At(t, newParent, newName).value.kind == Directory &&
            At(t, newParent, newName).value.ino in t && t[At(t, newParent, newName).value.ino] != map[]
    then Some(NotEmpty)
    else None
  }

  lemma CreateShaped(inodes: map<nat, Attr>, t: Forest, up: map<nat, nat>, parent: nat, name: Name, ino: nat, attr: Attr)
    requires Shaped(inodes, t, up) && parent in t && name !in t[parent]
    requires ino !in inodes && ino !in t && ino != ROOT
    ensures Shaped(inodes[ino := attr], TreeCreated(t, parent, name, Node(ino, attr.kind)),
                   if attr.kind == Directory then up[ino := parent] else up)
  {
    var t' := TreeCreated(t, parent, name, Node(ino, attr.kind));
    CreatedAt(t, parent, name, Node(ino, attr.kind));
    hide At, TreeCreated;
    assert Linked(inodes, t);
    assert forall d, n :: At(t, d, n).Some? ==> At(t, d, n).value.ino != ino;
  }

  lemma RemoveShaped(inodes: map<nat, Attr>, t: Forest, up: map<nat, nat>, parent: nat, name: Name)
    requires Shaped(inodes, t, up) && At(t, parent, name).Some?
    requires var i := t[parent][name].ino; i in t ==> t[i] == map[]
    ensures var i := t[parent][name].ino;
            Shaped(inodes - {i}, TreeRemoved(t, parent, name), up - {i})
  {
    var t' := TreeRemoved(t, parent, name);
    RemovedAt(t, parent, name);
    var i := At(t, parent, name).value.ino;
    hide At, TreeRemoved;
    assert forall d, n :: At(t', d, n).Some? ==> At(t', d, n).value.ino != i;
  }

  lemma MoveShaped(inodes: map<nat, Attr>, t: Forest, up: map<nat, nat>,
                   parent: nat, name: Name, newParent: nat, newName: Name)
    requires Shaped(inodes, t, up) && At(t, parent, name).Some? && newParent in t
    ensures var node := t[parent][name];
            Shaped(inodes, TreeMoved(t, parent, name, newParent, newName),
                   if node.kind == Directory then up[node.ino := newParent] else up)
  {
    var t' := TreeMoved(t, parent, name, newParent, newName);
    var node := At(t, parent, name).value;
    MovedAt(t, parent, name, newParent, newName);
    hide At, TreeMoved;
    assert forall d, n :: At(t', d, n).Some? && !(d == newParent && n == newName) ==> At(t', d, n).value.ino != node.ino;
  }

  /** `b` is `a` touched: modified, changed and accessed now, but no earlier modified than before. */
  predicate TouchedFrom(a: Attr, b: Attr, now: nat) {
    b == a.(atime := now, ctime := now, mtime := Max(a.mtime, now))
  }

  /** `b` is `a` with the access and change times set to now. */
  predicate AccessedFrom(a: Attr, b: Attr, now: nat) {
    b == a.(atime := now, ctime := now)
  }

  /** The times of one inode set to now, where it exists. */
  function Touched(inodes: map<nat, Attr>, i: nat, now: nat): (r: map<nat, Attr>)
    ensures r.Keys == inodes.Keys && forall j :: j in inodes && j != i ==> r[j] == inodes[j]
    ensures i in inodes ==> TouchedFrom(inodes[i], r[i], now)
  {
    if i in inodes then inodes[i := Update(inodes[i], TouchAt(now), false, now)] else inodes
  }

  /** The access time of one inode set to now. */
  function Accessed(inodes: map<nat, Attr>, i: nat, now: nat): (r: map<nat, Attr>)
    ensures r.Keys == inodes.Keys && forall j :: j in inodes && j != i ==> r[j] == inodes[j]
    ensures i in inodes ==> AccessedFrom(inodes[i], r[i], now)
  {
    if i in inodes then inodes[i := Update(inodes[i], AccessAt(now), false, now)] else inodes
  }

  /** A move touches both directories, and the moved inode but for its modification time. */
  function Renamed(inodes: map<nat, Attr>, parent: nat, newParent: nat, i: nat, now: nat): (r: map<nat, Attr>)
    ensures r.Keys == inodes.Keys && forall j :: j in inodes && j !in {parent, newParent, i} ==> r[j] == inodes[j]
    ensures forall j :: j in inodes && (j == parent || j == newParent) ==> TouchedFrom(inodes[j], r[j], now)
    ensures i in inodes && i != parent && i != newParent ==> AccessedFrom(inodes[i], r[i], now)
  {
    var t := Touched(Touched(inodes, parent, now), newParent, now);
    if i in t then t[i := Update(t[i], TouchAt(now).(mtime := None), false, now)] else t
  }

  // ---- the file system ---------------------------------------------------------------------

  /**
   * A sealed name that is cached is cached as it is stored, `$.` is always its own directory, and `$..` some
   * directory.
   */
  ghost predicate MetaCached(c: Store, m: map<(nat, EncName), LsEntry>) {
    forall d, e :: (d, e) in m ==>
      && (e.Sealed? && IsDirIn(c, d) && e in c[d].dir.ls ==> m[(d, e)] == c[d].dir.ls[e])
      && (e.EncSelf? ==> m[(d, e)] == LsEntry(d, Directory))
      && (e.EncParent? ==> m[(d, e)].kind == Directory)
  }

  /** A cached attribute of an existing inode is the stored one. */
  ghost predicate AttrCached(inodes: map<nat, Attr>, m: map<nat, Attr>) {
    forall i :: i in m && i in inodes ==> m[i] == inodes[i]
  }

  datatype DirEntry = DirEntry(name: Name, ino: nat, kind: Kind)

  /** The directory's own links are listed as `.` and `..`, and a sealed name as what was sealed. */
  ghost predicate ListedAs(e: EncName, name: Name) {
    match e
    case EncSelf => name == DOT
    case EncParent => name == DOTDOT
    case Sealed(n, _) => name == n
  }

  /** What a walk gives for an LS entry: what is cached for it, or else what is stored. */
  function Recalled(m: map<(nat, EncName), LsEntry>, d: nat, ls: map<EncName, LsEntry>, e: EncName): LsEntry
    requires e in ls
  {
    if (d, e) in m then m[(d, e)] else ls[e]
  }

  /** The entry is the only one listed under its name. */
  ghost predicate Once(list: seq<DirEntry>, e: DirEntry) {
    e in list && forall i, j :: 0 <= i < |list| && 0 <= j < |list| && list[i] == e && list[j].name == e.name ==> i == j
  }

  /** The directory lists itself once as `.`, and once a parent as `..`, or none. */
  ghost predicate LinksListed(d: nat, list: seq<DirEntry>, parent: Option<nat>) {
    && Once(list, DirEntry(DOT, d, Directory))
    && match parent
       case Some(p) => Once(list, DirEntry(DOTDOT, p, Directory))
       case None => forall e :: e in list ==> e.name != DOTDOT
  }

  /** Distinct sealed names of the directory, each listed with what the LS index stores; `..` may be stale. */
  ghost predicate Walked(d: Dir, encs: seq<EncName>, list: seq<DirEntry>) {
    && |encs| == |list|
    && (forall i, j :: 0 <= i < j < |encs| ==> encs[i] != encs[j])
    && forall i :: 0 <= i < |encs| ==>
         && encs[i] in d.ls
         && ListedAs(encs[i], list[i].name)
         && (encs[i] != EncParent ==> LsEntry(list[i].ino, list[i].kind) == d.ls[encs[i]])
  }

  /** The walk covers the whole index. */
  ghost predicate Lists(d: Dir, encs: seq<EncName>, list: seq<DirEntry>) {
    Walked(d, encs, list) && forall e :: e in d.ls ==> e in encs
  }

  class EncryptedFs {
    var inodes: map<nat, Attr>
    var contents: Store
    var attrCache: map<nat, Attr>
    var metaCache: map<(nat, EncName), LsEntry>

    ghost predicate Valid()
      reads this
    {
      Sound(inodes, contents) && AttrCached(inodes, attrCache) && MetaCached(contents, metaCache)
    }

    /** A new file system holds an empty root. */
    constructor (attr: Attr)
      requires attr.kind == Directory
      ensures Valid() && inodes == map[ROOT := attr] && Tree(contents) == map[ROOT := map[]]
    {
      inodes := map[ROOT := attr];
      contents := map[ROOT := DirBody(AddTo(Dir(map[], map[]), SelfKey, EncSelf, ROOT, Directory))];
      attrCache := map[ROOT := attr];
      metaCache := map[];
      new;
      RootIndexed();
      assert Tree(contents) == map[ROOT := map[]];
    }

    /** The least recently used attributes fall out of the cache at any time. */
    method EvictAttrs(out: set<nat>)
      requires Valid()
      modifies this`attrCache
      ensures Valid() && attrCache == old(attrCache) - out
    {
      attrCache := attrCache - out;
    }

    method EvictMeta(out: set<(nat, EncName)>)
      requires Valid()
      modifies this`metaCache
      ensures Valid() && metaCache == old(metaCache) - out
    {
      metaCache := metaCache - out;
    }

    predicate Exists(ino: nat)
      reads this
    {
      ino in inodes
    }

    predicate IsDir(ino: nat)
      reads this
    {
      IsDirIn(contents, ino)
    }

    function ExistsByName(parent: nat, name: Name): FsResult<bool>
      reads this
    {
      if !Exists(parent) then Failure(InodeNotFound)
      else if !IsDir(parent) then Failure(InvalidInodeType)
      else Success(HashFileName(name) in contents[parent].dir.hash)
    }

    /** From the cache, or else from storage and into the cache. */
    method GetInode(ino: nat) returns (r: FsResult<Attr>)
      requires AttrCached(inodes, attrCache)
      modifies this`attrCache
      ensures AttrCached(inodes, attrCache) && (old(Valid()) ==> Valid())
      ensures attrCache.Keys >= old(attrCache.Keys)
      ensures attrCache == if r.Success? then old(attrCache)[ino := r.value] else old(attrCache)
      ensures ino in inodes ==> r == Success(inodes[ino])
      ensures ino !in inodes && ino !in old(attrCache) ==> r == Failure(InodeNotFound)
      ensures ino !in inodes && ino in old(attrCache) ==> r == Success(old(attrCache)[ino])
    {
      if ino in attrCache { return Success(attrCache[ino]); }
      if ino !in inodes { return Failure(InodeNotFound); }
      attrCache := attrCache[ino := inodes[ino]];
      return Success(inodes[ino]);
    }

    method WriteInode(ino: nat, attr: Attr)
      modifies this`inodes, this`attrCache
      ensures inodes == old(inodes)[ino := attr] && attrCache == old(attrCache)[ino := attr]
    {
      inodes := inodes[ino := attr];
      attrCache := attrCache[ino := attr];
    }

    method SetAttr(ino: nat, update: SetAttr, now: nat) returns (r: FsResult<()>)
      requires AttrCached(inodes, attrCache) && ino in inodes
      modifies this`inodes, this`attrCache
      ensures r == Success(()) && AttrCached(inodes, attrCache) && attrCache.Keys >= old(attrCache.Keys)
      ensures forall i :: i in old(attrCache) && i != ino ==> attrCache[i] == old(attrCache)[i]
      ensures old(Valid()) ==> Valid()
      ensures inodes == old(inodes)[ino := Update(old(inodes)[ino], update, false, now)]
    {
      hide AllIndexed, At;
      var a := GetInode(ino);
      match a {
        case Failure(e) => return Failure(e);
        case Success(attr) =>
          WriteInode(ino, Update(attr, update, false, now));
          if old(Valid()) { AttrOnly(old(inodes), contents, ino, Update(attr, update, false, now)); }
          return Success(());
      }
    }

    /**
     * The entry's attributes, by name. The directory's own names give itself and its parent; a parent that
     * was removed since is only found if it is still cached.
     */
    method FindByName(parent: nat, name: Name) returns (r: FsResult<Option<Attr>>)
      requires Valid()
      modifies this`attrCache
      ensures Valid()
      ensures parent !in inodes ==> r == Failure(InodeNotFound)
      ensures parent in inodes && parent !in Tree(contents) ==> r == Failure(InvalidInodeType)
      ensures parent in Tree(contents) && (name == SELF || name == DOT) ==>
                parent in inodes && r == Success(Some(inodes[parent]))
      ensures parent in Tree(contents) && (name == PARENT || name == DOTDOT) ==>
                && parent in inodes && (parent in Up(contents) <==> parent != ROOT)
                && (if parent == ROOT then r == Success(None) else
                      var up := Up(contents)[parent];
                      if up in inodes then r == Success(Some(inodes[up]))
                      else if up in old(attrCache) then r == Success(Some(old(attrCache)[up]))
                      else r == Failure(InodeNotFound))
      ensures parent in Tree(contents) && (Ordinary(name) || name == []) ==>
                match At(Tree(contents), parent, name)
                case None => r == Success(None)
                case Some(node) =>
                  && node.ino in inodes && node.kind == inodes[node.ino].kind && r == Success(Some(inodes[node.ino]))
                  && attrCache == old(attrCache)[node.ino := inodes[node.ino]]
    {
      hide Sound, MetaCached, Tree, Up, At;
      TreeDirs(contents, parent);
      if !Exists(parent) { NoDir(inodes, contents, parent); return Failure(InodeNotFound); }
      if !IsDir(parent) { return Failure(InvalidInodeType); }
      LookupFacts(inodes, contents, parent, name);
      var dir := contents[parent].dir;
      if HashFileName(name) !in dir.hash { return Success(None); }
      var a := GetInode(dir.hash[HashFileName(name)].ino);
      match a {
        case Failure(e) => return Failure(e);
        case Success(attr) => return Success(Some(attr));
      }
    }

    /** Writes the entry into both indexes. */
    method InsertDirectoryEntry(dir: nat, name: Name, nonce: nat, ino: nat, kind: Kind)
      requires IsDir(dir)
      modifies this`contents
      ensures contents == Insert(old(contents), dir, name, nonce, ino, kind)
    {
      var enc := EncryptFileName(name, nonce);
      var d := contents[dir].dir;
      var ls := d.ls[enc := LsEntry(ino, kind)];
      var hash := d.hash[HashFileName(name) := HashEntry(ino, kind, enc)];
      contents := contents[dir := DirBody(Dir(ls, hash))];
    }

    /** Removes the hash entry, and the LS entry under the sealed name that it kept. */
    method RemoveDirectoryEntry(dir: nat, name: Name) returns (r: FsResult<()>)
      modifies this`contents
      ensures if IsDirIn(old(contents), dir) && HashFileName(name) in old(contents)[dir].dir.hash
              then r == Success(()) && contents == Erase(old(contents), dir, name)
              else r == Failure(Io) && contents == old(contents)
    {
      if !IsDir(dir) || HashFileName(name) !in contents[dir].dir.hash { return Failure(Io); }
      var d := contents[dir].dir;
      var enc := d.hash[HashFileName(name)].enc;
      contents := contents[dir := DirBody(Dir(d.ls - {enc}, d.hash - {HashFileName(name)}))];
      return Success(());
    }

    /**
     * Creates a file or directory under a new inode number and a fresh nonce. Only the name `$..` in
     * the root, which no other check refuses, breaks the indexes.
     */
    method Create(parent: nat, name: Name, attr: Attr, ino: nat, nonce: nat, now: nat) returns (r: FsResult<nat>)
      requires Valid() && name != [] && ino !in inodes && ino > ROOT && FreshNonce(contents, metaCache, nonce)
      modifies this
      ensures metaCache == old(metaCache)
      ensures r == Failure(FsError.InvalidInput) <==> name == DOT || name == DOTDOT
      ensures name != DOT && name != DOTDOT ==>
                && (r == Failure(InodeNotFound) <==> parent !in old(inodes))
                && (r == Failure(InvalidInodeType) <==> parent in old(inodes) && parent !in Tree(old(contents)))
                && (r == Failure(AlreadyExists) <==>
                      && parent in Tree(old(contents))
                      && (name == SELF || (name == PARENT && parent != ROOT) || At(Tree(old(contents)), parent, name).Some?))
                && (r.Success? <==>
                      && parent in Tree(old(contents)) && name != SELF && (name == PARENT ==> parent == ROOT)
                      && At(Tree(old(contents)), parent, name).None?)
                && (r.Success? ==> r.value == ino)
      ensures r.Failure? ==> unchanged(this)
      ensures Valid() <==> !(r.Success? && name == PARENT)
      ensures r.Success? && name != PARENT ==>
                && parent in Tree(old(contents))
                && Tree(contents) == TreeCreated(Tree(old(contents)), parent, name, Node(ino, attr.kind))
                && Up(contents) == (if attr.kind == Directory then Up(old(contents))[ino := parent] else Up(old(contents)))
                && inodes == Touched(old(inodes)[ino := attr], parent, now)
    {
      hide Sound, MetaCached, FreshNonce, Tree, Up, TreeCreated, At;
      TreeDirs(contents, parent);
      if IsDir(parent) { NameTaken(parent, name); }
      if name == DOT || name == DOTDOT { return Failure(FsError.InvalidInput); }
      if !Exists(parent) { return Failure(InodeNotFound); }
      var taken := ExistsByName(parent, name);
      if taken.Failure? { return Failure(taken.error); }
      if taken.value { return Failure(AlreadyExists); }
      if Ordinary(name) {
        CreateSound(inodes, contents, metaCache, parent, name, nonce, ino, attr);
      } else {
        SoundParts(inodes, contents);
        RootParentBreaks(contents, parent, name, nonce, ino, attr.kind);
      }
      WriteInode(ino, attr);
      PutBody(ino, attr.kind, parent, nonce);
      InsertDirectoryEntry(parent, name, nonce, ino, attr.kind);
      assert contents == Created(old(contents), parent, name, nonce, ino, attr.kind);
      var s := SetAttr(parent, TouchAt(now), now);
      if name == PARENT && Sound(inodes, contents) { SoundParts(inodes, contents); }
      return Success(ino);
    }

    /** Which names a directory has: its own links, and those in the tree. */
    lemma NameTaken(parent: nat, name: Name)
      requires Valid() && IsDir(parent)
      ensures name != DOT && name != DOTDOT ==>
                ExistsByName(parent, name) ==
                Success(name == SELF || (name == PARENT && parent != ROOT) || At(Tree(contents), parent, name).Some?)
      ensures At(Tree(contents), parent, name).Some? ==> Ordinary(name)
      ensures parent in inodes
    {
      assert Indexed(parent, contents[parent].dir);
      hide Indexed, Entries;
      EntriesAt(contents[parent].dir, name);
      LookupFacts(inodes, contents, parent, name);
      OrdinaryEntry(parent, contents[parent].dir, name);
    }

    /** The contents of a new inode: an empty file, or a directory with its own two links. */
    method PutBody(ino: nat, kind: Kind, parent: nat, nonce: nat)
      modifies this`contents
      ensures contents == old(contents)[ino := BodyFor(kind, ino, parent)]
    {
      if kind == RegularFile {
        contents := contents[ino := FileBody];
      } else {
        contents := contents[ino := DirBody(Dir(map[], map[]))];
        InsertDirectoryEntry(ino, SELF, nonce, ino, Directory);
        InsertDirectoryEntry(ino, PARENT, nonce, parent, Directory);
      }
    }

    /** Deletes the inode, its contents and its entry. */
    method Unlink(parent: nat, name: Name, ino: nat, now: nat) returns (r: FsResult<()>)
      requires Valid() && Ordinary(name) && At(Tree(contents), parent, name).Some?
      requires ino == At(Tree(contents), parent, name).value.ino
      requires ino in Tree(contents) ==> Tree(contents)[ino] == map[]
      modifies this
      ensures r == Success(()) && Valid() && metaCache == old(metaCache)
      ensures parent != ino && parent in old(inodes)
      ensures Tree(contents) == TreeRemoved(Tree(old(contents)), parent, name)
      ensures Up(contents) == Up(old(contents)) - {ino}
      ensures inodes == Touched(old(inodes) - {ino}, parent, now)
      ensures ino in old(attrCache) ==> ino in attrCache && attrCache[ino] == old(attrCache)[ino]
    {
      hide Sound, MetaCached, FreshNonce, Tree, Up, TreeRemoved, At;
      RemoveSound(inodes, contents, metaCache, parent, name);
      inodes := inodes - {ino};
      contents := contents - {ino};
      var e := RemoveDirectoryEntry(parent, name);
      // the cache only ranks the inode lower; it stays in
      assert AttrCached(inodes, attrCache);
      r := SetAttr(parent, TouchAt(now), now);
    }

    /** Deletes a file. */
    method RemoveFile(parent: nat, name: Name, now: nat) returns (r: FsResult<()>)
      requires Valid() && Ordinary(name)
      modifies this
      ensures Valid() && metaCache == old(metaCache)
      ensures r == match old(RemoveError(Tree(contents), parent, name, RegularFile))
                   case Some(e) => Failure(e)
                   case None => Success(())
      ensures var t := Tree(old(contents));
              var entry := At(t, parent, name);
              && (r.Success? <==> entry.Some? && entry.value.kind == RegularFile)
              && (r == Failure(NotFound) <==> parent in t && entry.None?)
              && (r == Failure(InvalidInodeType) <==> parent !in t || (entry.Some? && entry.value.kind == Directory))
      ensures r.Failure? ==> inodes == old(inodes) && contents == old(contents)
      ensures r.Success? ==>
                && At(Tree(old(contents)), parent, name).Some?
                && var ino := At(Tree(old(contents)), parent, name).value.ino;
                && Tree(contents) == TreeRemoved(Tree(old(contents)), parent, name)
                && Up(contents) == Up(old(contents)) - {ino}
                && parent in old(inodes) && ino in old(inodes)
                && inodes == Touched(old(inodes) - {ino}, parent, now)
                && ino in attrCache && attrCache[ino] == old(inodes)[ino]
    {
      hide Sound, MetaCached, TreeRemoved, HasChildren;
      TreeDirs(contents, parent);
      if At(Tree(contents), parent, name).Some? { ChildrenIs(Tree(contents), At(Tree(contents), parent, name).value.ino); }
      if !IsDir(parent) { return Failure(InvalidInodeType); }
      ByName(parent, name);
      var found := ExistsByName(parent, name);
      if found != Success(true) { return Failure(NotFound); }
      var f := FindByName(parent, name);
      match f {
        case Failure(e) => return Failure(e);
        case Success(None) => return Failure(NotFound);
        case Success(Some(attr)) =>
          if attr.kind != RegularFile { return Failure(InvalidInodeType); }
          var ino := contents[parent].dir.hash[HashFileName(name)].ino;
          FileHasNoEntries(inodes, contents, ino);
          r := Unlink(parent, name, ino, now);
      }
    }

    /** Deletes a directory that has no named children. */
    method RemoveDir(parent: nat, name: Name, now: nat) returns (r: FsResult<()>)
      requires Valid() && Ordinary(name)
      modifies this
      ensures Valid() && metaCache == old(metaCache)
      ensures r == match old(RemoveError(Tree(contents), parent, name, Directory))
                   case Some(e) => Failure(e)
                   case None => Success(())
      ensures var t := Tree(old(contents));
              var entry := At(t, parent, name);
              && (r.Success? <==> entry.Some? && entry.value.kind == Directory && !HasChildren(t, entry.value.ino))
              && (r == Failure(NotEmpty) <==> entry.Some? && entry.value.kind == Directory && HasChildren(t, entry.value.ino))
              && (r == Failure(NotFound) <==> parent in t && entry.None?)
              && (r == Failure(InvalidInodeType) <==> parent !in t || (entry.Some? && entry.value.kind == RegularFile))
      ensures r.Failure? ==> inodes == old(inodes) && contents == old(contents)
      ensures r.Success? ==>
                && At(Tree(old(contents)), parent, name).Some?
                && var ino := At(Tree(old(contents)), parent, name).value.ino;
                && Tree(contents) == TreeRemoved(Tree(old(contents)), parent, name)
                && Up(contents) == Up(old(contents)) - {ino}
                && parent in old(inodes) && ino in old(inodes)
                && inodes == Touched(old(inodes) - {ino}, parent, now)
                && ino in attrCache && attrCache[ino] == old(inodes)[ino]
    {
      hide Sound, MetaCached, TreeRemoved, HasChildren;
      TreeDirs(contents, parent);
      if At(Tree(contents), parent, name).Some? { ChildrenIs(Tree(contents), At(Tree(contents), parent, name).value.ino); }
      if !IsDir(parent) { return Failure(InvalidInodeType); }
      ByName(parent, name);
      var found := ExistsByName(parent, name);
      if found != Success(true) { return Failure(NotFound); }
      var f := FindByName(parent, name);
      match f {
        case Failure(e) => return Failure(e);
        case Success(None) => return Failure(NotFound);
        case Success(Some(attr)) =>
          if attr.kind != Directory { return Failure(InvalidInodeType); }
          var ino := contents[parent].dir.hash[HashFileName(name)].ino;
          DirHasLen(inodes, contents, ino);
          if Len(ino, contents[ino].dir) > 0 { return Failure(NotEmpty); }
          r := Unlink(parent, name, ino, now);
      }
    }

    /** Lookup by name is membership in the tree. */
    lemma ByName(parent: nat, name: Name)
      requires Valid() && HashFileName(name).Digest? && IsDir(parent)
      ensures Exists(parent) && parent in Tree(contents)
      ensures ExistsByName(parent, name) == Success(At(Tree(contents), parent, name).Some?)
      ensures At(Tree(contents), parent, name).Some? ==>
                && HashFileName(name) in contents[parent].dir.hash
                && At(Tree(contents), parent, name).value.ino == contents[parent].dir.hash[HashFileName(name)].ino
                && At(Tree(contents), parent, name).value.ino in inodes
                && At(Tree(contents), parent, name).value.ino != ROOT
                && At(Tree(contents), parent, name).value.kind == inodes[At(Tree(contents), parent, name).value.ino].kind
    {
      hide Indexed, Entries;
      EntriesAt(contents[parent].dir, name);
      if At(Tree(contents), parent, name).Some? { EntryFacts(inodes, contents, parent, name); }
    }

    /**
     * Moves an entry, over a file or an empty directory if there is one. The moved inode keeps its
     * contents; an overwritten inode keeps its own too, without an entry.
     */
    method Rename(parent: nat, name: Name, newParent: nat, newName: Name, nonce: nat, now: nat)
      returns (r: FsResult<()>)
      requires Valid() && Ordinary(name) && Ordinary(newName) && FreshNonce(contents, metaCache, nonce)
      modifies this
      ensures Valid() && metaCache == old(metaCache)
      ensures r == match old(RenameError(inodes.Keys, Tree(contents), parent, name, newParent, newName))
                   case Some(e) => Failure(e)
                   case None => Success(())
      ensures var t, all := Tree(old(contents)), old(inodes).Keys;
              var dirs := parent in all && parent in t && newParent in all && newParent in t;
              var same := parent == newParent && name == newName;
              var entry, over := At(t, parent, name), At(t, newParent, newName);
              var full := over.Some? && HasChildren(t, over.value.ino);
              && (r.Success? <==> dirs && entry.Some? && (same || !full))
              && (r == Failure(InodeNotFound) <==> parent !in all || (parent in t && newParent !in all))
              && (r == Failure(InvalidInodeType) <==>
                    (parent in all && parent !in t) || (parent in all && parent in t && newParent in all && newParent !in t))
              && (r == Failure(NotFound) <==> dirs && entry.None?)
              && (r == Failure(NotEmpty) <==> dirs && entry.Some? && !same && full)
      ensures r.Failure? || (parent == newParent && name == newName) ==>
                inodes == old(inodes) && contents == old(contents)
      ensures r.Success? && !(parent == newParent && name == newName) ==>
                && At(Tree(old(contents)), parent, name).Some? && newParent in Tree(old(contents))
                && var node := At(Tree(old(contents)), parent, name).value;
                && Tree(contents) == TreeMoved(Tree(old(contents)), parent, name, newParent, newName)
                && Up(contents) == (if node.kind == Directory then Up(old(contents))[node.ino := newParent]
                                    else Up(old(contents)))
                && inodes == Renamed(old(inodes), parent, newParent, node.ino, now)
    {
      hide Sound, MetaCached, Tree, Up, TreeMoved, FreshNonce, HasChildren;
      TreeDirs(contents, parent);
      TreeDirs(contents, newParent);
      if At(Tree(contents), newParent, newName).Some? {
        ChildrenIs(Tree(contents), At(Tree(contents), newParent, newName).value.ino);
        FilesHaveNone(inodes, contents, newParent, newName);
      }
      if !Exists(parent) { return Failure(InodeNotFound); }
      if !IsDir(parent) { return Failure(InvalidInodeType); }
      if !Exists(newParent) { return Failure(InodeNotFound); }
      if !IsDir(newParent) { return Failure(InvalidInodeType); }
      ByName(parent, name);
      ByName(newParent, newName);
      var found := ExistsByName(parent, name);
      if found != Success(true) { return Failure(NotFound); }
      if parent == newParent && name == newName { return Success(()); }
      var over := FindByName(newParent, newName);
      if over.Success? && over.value.Some? {
        if over.value.value.kind == Directory {
          var ino := contents[newParent].dir.hash[HashFileName(newName)].ino;
          DirHasLen(inodes, contents, ino);
          if Len(ino, contents[ino].dir) > 0 { return Failure(NotEmpty); }
        }
      }
      var f := FindByName(parent, name);
      match f {
        case Failure(e) => return Failure(e);
        case Success(None) => return Failure(NotFound);
        case Success(Some(attr)) =>
          var ino := contents[parent].dir.hash[HashFileName(name)].ino;
          MoveAndTouch(parent, name, newParent, newName, nonce, ino, attr.kind, now);
          return Success(());
      }
    }

    method MoveAndTouch(parent: nat, name: Name, newParent: nat, newName: Name, nonce: nat, ino: nat, kind: Kind, now: nat)
      requires Valid() && Ordinary(name) && Ordinary(newName) && FreshNonce(contents, metaCache, nonce)
      requires IsDir(newParent) && !(parent == newParent && name == newName)
      requires At(Tree(contents), parent, name) == Some(Node(ino, kind))
      requires parent in inodes && newParent in inodes && ino in inodes
      modifies this
      ensures Valid() && metaCache == old(metaCache)
      ensures inodes == Renamed(old(inodes), parent, newParent, ino, now)
      ensures newParent in Tree(old(contents))
      ensures Tree(contents) == TreeMoved(Tree(old(contents)), parent, name, newParent, newName)
      ensures Up(contents) == if kind == Directory then Up(old(contents))[ino := newParent] else Up(old(contents))
    {
      hide Sound, MetaCached, Tree, Up, TreeMoved, FreshNonce, At, Moved, Update;
      MoveEntry(parent, name, newParent, newName, nonce, ino, kind);
      var s1 := SetAttr(parent, TouchAt(now), now);
      var s2 := SetAttr(newParent, TouchAt(now), now);
      var s3 := SetAttr(ino, TouchAt(now).(mtime := None), now);
    }

    /** The changes of a move to the indexes. */
    method MoveEntry(parent: nat, name: Name, newParent: nat, newName: Name, nonce: nat, ino: nat, kind: Kind)
      requires Valid() && Ordinary(name) && Ordinary(newName) && FreshNonce(contents, metaCache, nonce)
      requires IsDir(newParent) && !(parent == newParent && name == newName)
      requires At(Tree(contents), parent, name) == Some(Node(ino, kind))
      modifies this`contents
      ensures Valid() && contents == Moved(old(contents), parent, name, newParent, newName, nonce, ino, kind)
      ensures newParent in Tree(old(contents))
      ensures Tree(contents) == TreeMoved(Tree(old(contents)), parent, name, newParent, newName)
      ensures Up(contents) == if kind == Directory then Up(old(contents))[ino := newParent] else Up(old(contents))
    {
      hide Sound, MetaCached, Tree, Up, TreeMoved, FreshNonce, At;
      MoveSound(inodes, contents, metaCache, parent, name, newParent, newName, nonce, ino, kind);
      var e := RemoveDirectoryEntry(parent, name);
      if IsDir(newParent) && HashFileName(newName) in contents[newParent].dir.hash {
        e := RemoveDirectoryEntry(newParent, newName);
      }
      InsertDirectoryEntry(newParent, newName, nonce, ino, kind);
      if kind == Directory {
        InsertDirectoryEntry(ino, PARENT, nonce, newParent, Directory);
      }
    }

    /** One listed entry: decrypted name, and inode and kind from the cache or else from the LS file. */
    method ReadEntry(dir: nat, enc: EncName) returns (r: DirEntry)
      requires Valid() && IsDir(dir) && enc in contents[dir].dir.ls
      modifies this`metaCache
      ensures Valid()
      ensures ListedAs(enc, r.name)
      ensures LsEntry(r.ino, r.kind) == Recalled(old(metaCache), dir, contents[dir].dir.ls, enc)
      ensures enc != EncParent ==> LsEntry(r.ino, r.kind) == contents[dir].dir.ls[enc]
      ensures metaCache == old(metaCache)[(dir, enc) := LsEntry(r.ino, r.kind)]
    {
      hide Sound, MetaCached, Up;
      SelfEntry(inodes, contents, dir);
      MetaPut(contents, metaCache, dir, enc);
      var name := DecryptFileName(enc);
      if (dir, enc) in metaCache {
        return DirEntry(name, metaCache[(dir, enc)].ino, metaCache[(dir, enc)].kind);
      }
      var e := contents[dir].dir.ls[enc];
      metaCache := metaCache[(dir, enc) := e];
      return DirEntry(name, e.ino, e.kind);
    }

    /** Lists a directory, in the order in which the LS index is walked. */
    method ReadDir(dir: nat, now: nat) returns (r: FsResult<seq<DirEntry>>, ghost encs: seq<EncName>)
      requires Valid()
      modifies this`inodes, this`attrCache, this`metaCache
      ensures Valid()
      ensures inodes == if IsDir(dir) then Accessed(old(inodes), dir, now) else old(inodes)
      ensures !IsDir(dir) ==> r == Failure(InvalidInodeType)
      ensures IsDir(dir) ==>
                && r.Success? && Lists(contents[dir].dir, encs, r.value)
                && LinksListed(dir, r.value, ParentLink(Up(contents), Links(old(metaCache)), dir))
                && (forall p :: p in metaCache <==> p in old(metaCache) || (p.0 == dir && p.1 in contents[dir].dir.ls))
                && (forall p :: p in metaCache ==>
                      metaCache[p] == if p in old(metaCache) then old(metaCache)[p] else contents[dir].dir.ls[p.1])
      ensures !IsDir(dir) ==> metaCache == old(metaCache)
    {
      hide Sound, MetaCached, AttrCached, Lists;
      if !IsDir(dir) { encs := []; r := Failure(InvalidInodeType); return; }
      DirExists(inodes, contents, dir);
      assert AttrCached(inodes, attrCache);
      var s := SetAttr(dir, AccessAt(now), now);
      var list: seq<DirEntry>;
      list, encs := WalkDir(dir);
      LinksAre(inodes, contents, old(metaCache), dir, encs, list);
      r := Success(list);
    }

    /** Reads every entry of the LS index, in any order. */
    method WalkDir(dir: nat) returns (list: seq<DirEntry>, ghost encs: seq<EncName>)
      requires Valid() && IsDir(dir)
      modifies this`metaCache
      ensures Valid() && Lists(contents[dir].dir, encs, list)
      ensures forall i :: 0 <= i < |list| && encs[i] == EncParent ==>
                LsEntry(list[i].ino, list[i].kind) == Recalled(old(metaCache), dir, contents[dir].dir.ls, EncParent)
      ensures forall p :: p in metaCache <==> p in old(metaCache) || (p.0 == dir && p.1 in contents[dir].dir.ls)
      ensures forall p :: p in metaCache ==>
                metaCache[p] == if p in old(metaCache) then old(metaCache)[p] else contents[dir].dir.ls[p.1]
    {
      hide Sound, MetaCached, AttrCached;
      list, encs := [], [];
      var rest := contents[dir].dir.ls.Keys;
      while rest != {}
        invariant Valid()
        invariant rest <= contents[dir].dir.ls.Keys
        invariant forall e :: e in contents[dir].dir.ls ==> (e in rest <==> e !in encs)
        invariant Walked(contents[dir].dir, encs, list)
        invariant forall i :: 0 <= i < |list| && encs[i] == EncParent ==>
                    LsEntry(list[i].ino, list[i].kind) == Recalled(old(metaCache), dir, contents[dir].dir.ls, EncParent)
        invariant forall p :: p in metaCache <==> p in old(metaCache) || (p.0 == dir && p.1 in encs)
        invariant forall p :: p in metaCache ==>
                    metaCache[p] == if p in old(metaCache) then old(metaCache)[p] else contents[dir].dir.ls[p.1]
        decreases rest
      {
        var e :| e in rest;
        var entry := ReadEntry(dir, e);
        list, encs, rest := list + [entry], encs + [e], rest - {e};
      }
    }
  }

  function Created(c: Store, parent: nat, name: Name, nonce: nat, ino: nat, kind: Kind): Store {
    Insert(c[ino := BodyFor(kind, ino, parent)], parent, name, nonce, ino, kind)
  }

  lemma CreateSound(inodes: map<nat, Attr>, c: Store, m: map<(nat, EncName), LsEntry>,
                    parent: nat, name: Name, nonce: nat, ino: nat, attr: Attr)
    requires Sound(inodes, c) && MetaCached(c, m) && FreshNonce(c, m, nonce)
    requires IsDirIn(c, parent) && Ordinary(name) && Digest(name) !in c[parent].dir.hash
    requires ino !in inodes && ino != ROOT
    ensures var c' := Created(c, parent, name, nonce, ino, attr.kind);
            && Sound(inodes[ino := attr], c') && MetaCached(c', m)
            && parent in Tree(c)
            && Tree(c') == TreeCreated(Tree(c), parent, name, Node(ino, attr.kind))
            && Up(c') == if attr.kind == Directory then Up(c)[ino := parent] else Up(c)
  {
    hide Indexed, Entries, AllIndexed, AddTo, At;
    var c1 := c[ino := BodyFor(attr.kind, ino, parent)];
    EntriesAt(c[parent].dir, name);
    AddBodyTree(c, ino, attr.kind, parent);
    InsertTree(c1, parent, name, nonce, ino, attr.kind);
    CreateShaped(inodes, Tree(c), Up(c), parent, name, ino, attr);
    CreateMeta(c, m, parent, name, nonce, ino, attr.kind);
  }

  lemma CreateMeta(c: Store, m: map<(nat, EncName), LsEntry>, parent: nat, name: Name, nonce: nat, ino: nat, kind: Kind)
    requires MetaCached(c, m) && FreshNonce(c, m, nonce)
    requires IsDirIn(c, parent) && Ordinary(name) && ino !in c
    ensures MetaCached(Created(c, parent, name, nonce, ino, kind), m)
  {
  }

  lemma SoundParts(inodes: map<nat, Attr>, c: Store)
    requires Sound(inodes, c)
    ensures AllIndexed(c) && inodes.Keys == c.Keys && IsDirIn(c, ROOT)
  {
  }

  /** A parent link in the root is not a sound index. */
  lemma RootParentBreaks(c: Store, parent: nat, name: Name, nonce: nat, ino: nat, kind: Kind)
    requires AllIndexed(c) && IsDirIn(c, parent) && ino !in c
    requires !Ordinary(name) && name != [] && HashFileName(name) !in c[parent].dir.hash
    ensures HashFileName(name) == ParentKey && !AllIndexed(Created(c, parent, name, nonce, ino, kind))
  {
    var c' := Created(c, parent, name, nonce, ino, kind);
    assert Indexed(parent, c[parent].dir);
    assert parent == ROOT && IsDirIn(c', ROOT);
    assert ParentKey in c'[ROOT].dir.hash;
  }

  /** Erasing an entry and its inode removes it from the tree and keeps everything sound. */
  lemma RemoveSound(inodes: map<nat, Attr>, c: Store, m: map<(nat, EncName), LsEntry>, parent: nat, name: Name)
    requires Sound(inodes, c) && MetaCached(c, m) && Ordinary(name) && At(Tree(c), parent, name).Some?
    requires var i := At(Tree(c), parent, name).value.ino; i in Tree(c) ==> Tree(c)[i] == map[]
    ensures var i := At(Tree(c), parent, name).value.ino;
            var c' := Erase(c - {i}, parent, name);
            && i != parent && IsDirIn(c - {i}, parent) && parent in inodes
            && HashFileName(name) in c[parent].dir.hash
            && Sound(inodes - {i}, c') && MetaCached(c', m)
            && Tree(c') == TreeRemoved(Tree(c), parent, name)
            && Up(c') == Up(c) - {i}
  {
    hide Tree, Up, At, AllIndexed, Shaped, MetaCached, Erase;
    var i := At(Tree(c), parent, name).value.ino;
    EntryFacts(inodes, c, parent, name);
    EraseInode(c, parent, name, i);
    RemoveShaped(inodes, Tree(c), Up(c), parent, name);
    DropMeta(c, m, i);
    EraseMeta(c - {i}, m, parent, name);
  }

  lemma NoDir(inodes: map<nat, Attr>, c: Store, d: nat)
    requires Sound(inodes, c) && d !in inodes
    ensures !IsDirIn(c, d)
  {
  }

  /** What each kind of name finds in the hash index. */
  lemma LookupFacts(inodes: map<nat, Attr>, c: Store, d: nat, name: Name)
    requires Sound(inodes, c) && IsDirIn(c, d)
    ensures d in inodes
    ensures HashFileName(name).Digest? && HashFileName(name) !in c[d].dir.hash ==> At(Tree(c), d, name).None?
    ensures HashFileName(name).Digest? && HashFileName(name) in c[d].dir.hash ==>
              && At(Tree(c), d, name).Some?
              && var node := At(Tree(c), d, name).value;
                 && node.ino == c[d].dir.hash[HashFileName(name)].ino
                 && node.ino in inodes && node.kind == inodes[node.ino].kind
    ensures HashFileName(name) == SelfKey ==> SelfKey in c[d].dir.hash && c[d].dir.hash[SelfKey].ino == d
    ensures ParentKey in c[d].dir.hash <==> d != ROOT
    ensures ParentKey in c[d].dir.hash <==> d in Up(c)
    ensures d in Up(c) ==> Up(c)[d] == c[d].dir.hash[ParentKey].ino
  {
    assert Indexed(d, c[d].dir);
    hide Indexed, Entries;
    EntriesAt(c[d].dir, name);
    if At(Tree(c), d, name).Some? && HashFileName(name).Digest? { EntryFacts(inodes, c, d, name); }
  }

  /** A named entry is in the hash index, and its inode is another than the directory unless it has children. */
  lemma EntryFacts(inodes: map<nat, Attr>, c: Store, parent: nat, name: Name)
    requires Sound(inodes, c) && HashFileName(name).Digest? && At(Tree(c), parent, name).Some?
    ensures AllIndexed(c) && Shaped(inodes, Tree(c), Up(c)) && Stored(inodes, c)
    ensures IsDirIn(c, parent) && parent in Tree(c) && parent in inodes
    ensures HashFileName(name) == Digest(name) && Digest(name) in c[parent].dir.hash
    ensures var x := At(Tree(c), parent, name).value;
            && x == Node(c[parent].dir.hash[Digest(name)].ino, c[parent].dir.hash[Digest(name)].kind)
            && x.ino in inodes && x.ino != ROOT && x.kind == inodes[x.ino].kind
            && (x.ino == parent ==> Tree(c)[x.ino] != map[])
            && (x.kind == Directory <==> IsDirIn(c, x.ino))
            && Tree(c)[parent][name] == x
  {
    hide Indexed, Entries;
    EntriesAt(c[parent].dir, name);
  }

  lemma DropMeta(c: Store, m: map<(nat, EncName), LsEntry>, i: nat)
    requires MetaCached(c, m)
    ensures MetaCached(c - {i}, m)
  {
  }

  lemma EraseInode(c: Store, parent: nat, name: Name, i: nat)
    requires AllIndexed(c) && IsDirIn(c, parent) && i != parent
    requires Ordinary(name) && Digest(name) in c[parent].dir.hash
    ensures var c' := Erase(c - {i}, parent, name);
            && AllIndexed(c') && c'.Keys == c.Keys - {i}
            && (forall j :: j in c' ==> c'[j].DirBody? == c[j].DirBody?)
            && Tree(c') == Tree(c)[parent := Tree(c)[parent] - {name}] - {i}
            && Up(c') == Up(c) - {i}
  {
    hide Indexed, Entries, AllIndexed;
    DropBodyTree(c, i);
    EraseTree(c - {i}, parent, name);
  }

  lemma EraseMeta(c: Store, m: map<(nat, EncName), LsEntry>, d: nat, name: Name)
    requires MetaCached(c, m)
    ensures MetaCached(Erase(c, d, name), m)
  {
  }

  lemma FileHasNoEntries(inodes: map<nat, Attr>, c: Store, i: nat)
    requires Sound(inodes, c) && i in inodes && inodes[i].kind == RegularFile
    ensures i !in Tree(c)
  {
    hide Indexed, Entries;
  }

  lemma DirHasLen(inodes: map<nat, Attr>, c: Store, i: nat)
    requires Sound(inodes, c) && i in inodes && inodes[i].kind == Directory
    ensures IsDirIn(c, i) && i in Tree(c)
    ensures Len(i, c[i].dir) >= 0
    ensures Len(i, c[i].dir) == 0 <==> Tree(c)[i] == map[]
  {
    hide Indexed, Entries;
    LenZeroIffEmpty(i, c[i].dir);
  }

  function EraseIf(c: Store, d: nat, name: Name): Store {
    if IsDirIn(c, d) && HashFileName(name) in c[d].dir.hash then Erase(c, d, name) else c
  }

  function Moved(c: Store, parent: nat, name: Name, newParent: nat, newName: Name, nonce: nat, ino: nat, kind: Kind): Store {
    var c2 := EraseIf(Erase(c, parent, name), newParent, newName);
    var c3 := Insert(c2, newParent, newName, nonce, ino, kind);
    if kind == Directory then Insert(c3, ino, PARENT, nonce, newParent, Directory) else c3
  }

  /** Erasing where there may be nothing. */
  lemma EraseIfTree(c: Store, d: nat, name: Name)
    requires AllIndexed(c) && IsDirIn(c, d) && Ordinary(name)
    ensures var c' := EraseIf(c, d, name);
            && AllIndexed(c') && Up(c') == Up(c) && SameBodies(c, c')
            && Tree(c') == Tree(c)[d := Tree(c)[d] - {name}]
            && Digest(name) !in c'[d].dir.hash
            && (forall e :: IsDirIn(c, e) ==> c'[e].dir.ls.Keys <= c[e].dir.ls.Keys)
    ensures d in Tree(c)
  {
    hide Indexed, Entries, AllIndexed;
    EntriesAt(c[d].dir, name);
    if HashFileName(name) in c[d].dir.hash {
      EraseTree(c, d, name);
    } else {
      assert Tree(c)[d] - {name} == Tree(c)[d];
      assert Tree(c) == Tree(c)[d := Tree(c)[d] - {name}];
    }
  }

  /** The same inodes, each still a file or still a directory. */
  ghost predicate SameBodies(c: Store, c': Store) {
    c'.Keys == c.Keys && forall j :: j in c ==> c'[j].DirBody? == c[j].DirBody?
  }

  lemma InsertBodies(c: Store, d: nat, name: Name, nonce: nat, ino: nat, kind: Kind)
    ensures SameBodies(c, Insert(c, d, name, nonce, ino, kind))
  {
  }

  /** Both places of a move cleared. */
  lemma ClearTree(c: Store, parent: nat, name: Name, newParent: nat, newName: Name)
    requires AllIndexed(c) && IsDirIn(c, parent) && IsDirIn(c, newParent) && Ordinary(name) && Ordinary(newName)
    requires Digest(name) in c[parent].dir.hash
    ensures parent in Tree(c) && newParent in Tree(c)
    ensures var c2 := EraseIf(Erase(c, parent, name), newParent, newName);
            var t1 := Tree(c)[parent := Tree(c)[parent] - {name}];
            && AllIndexed(c2) && SameBodies(c, c2) && Up(c2) == Up(c)
            && Tree(c2) == t1[newParent := t1[newParent] - {newName}]
            && Digest(newName) !in c2[newParent].dir.hash
            && c2[newParent].dir.ls.Keys <= c[newParent].dir.ls.Keys
  {
    var c1 := Erase(c, parent, name);
    assert c1 == EraseIf(c, parent, name);
    hide AllIndexed, Tree, Up, Erase, EraseIf, HashFileName;
    InTree(c, newParent);
    EraseIfTree(c, parent, name);
    assert IsDirIn(c1, newParent);
    ClearRest(c, c1, newParent, newName);
  }

  lemma ClearRest(c: Store, c1: Store, d: nat, name: Name)
    requires AllIndexed(c1) && SameBodies(c, c1) && IsDirIn(c, d) && Ordinary(name)
    requires forall e :: IsDirIn(c, e) ==> c1[e].dir.ls.Keys <= c[e].dir.ls.Keys
    ensures d in Tree(c1)
    ensures var c2 := EraseIf(c1, d, name);
            && AllIndexed(c2) && SameBodies(c, c2) && Up(c2) == Up(c1)
            && Tree(c2) == Tree(c1)[d := Tree(c1)[d] - {name}]
            && Digest(name) !in c2[d].dir.hash
            && c2[d].dir.ls.Keys <= c[d].dir.ls.Keys
  {
    hide AllIndexed, Tree, Up, EraseIf;
    assert IsDirIn(c1, d);
    EraseIfTree(c1, d, name);
  }

  lemma InTree(c: Store, d: nat)
    requires IsDirIn(c, d)
    ensures d in Tree(c)
  {
  }

  /** The entry put in place, and a moved directory linked back. */
  lemma PutTree(c: Store, newParent: nat, newName: Name, nonce: nat, ino: nat, kind: Kind)
    requires AllIndexed(c) && IsDirIn(c, newParent) && Ordinary(newName)
    requires Digest(newName) !in c[newParent].dir.hash && EncryptFileName(newName, nonce) !in c[newParent].dir.ls
    requires kind == Directory ==> IsDirIn(c, ino) && ino != ROOT
    ensures newParent in Tree(c)
    ensures var c3 := Insert(c, newParent, newName, nonce, ino, kind);
            var c' := if kind == Directory then Insert(c3, ino, PARENT, nonce, newParent, Directory) else c3;
            && AllIndexed(c') && SameBodies(c, c')
            && Tree(c') == Tree(c)[newParent := Tree(c)[newParent][newName := Node(ino, kind)]]
            && Up(c') == if kind == Directory then Up(c)[ino := newParent] else Up(c)
  {
    hide AllIndexed, Up, Insert, Entries;
    InsertTree(c, newParent, newName, nonce, ino, kind);
    InsertBodies(c, newParent, newName, nonce, ino, kind);
    var c3 := Insert(c, newParent, newName, nonce, ino, kind);
    if kind == Directory {
      RelinkTree(c3, ino, nonce, newParent);
      InsertBodies(c3, ino, PARENT, nonce, newParent, Directory);
    }
  }

  lemma MoveTree(c: Store, parent: nat, name: Name, newParent: nat, newName: Name, nonce: nat, ino: nat, kind: Kind)
    requires AllIndexed(c) && IsDirIn(c, parent) && IsDirIn(c, newParent) && Ordinary(name) && Ordinary(newName)
    requires Digest(name) in c[parent].dir.hash
    requires kind == Directory ==> IsDirIn(c, ino) && ino != ROOT
    requires EncryptFileName(newName, nonce) !in c[newParent].dir.ls
    ensures parent in Tree(c) && newParent in Tree(c)
    ensures var c' := Moved(c, parent, name, newParent, newName, nonce, ino, kind);
            var t1 := Tree(c)[parent := Tree(c)[parent] - {name}];
            && AllIndexed(c') && SameBodies(c, c')
            && Tree(c') == t1[newParent := t1[newParent][newName := Node(ino, kind)]]
            && Up(c') == if kind == Directory then Up(c)[ino := newParent] else Up(c)
  {
    hide AllIndexed, Tree, Up, Erase, EraseIf, Insert, HashFileName, EncryptFileName;
    ClearTree(c, parent, name, newParent, newName);
    var t1 := Tree(c)[parent := Tree(c)[parent] - {name}];
    PutTree(EraseIf(Erase(c, parent, name), newParent, newName), newParent, newName, nonce, ino, kind);
    assert (t1[newParent] - {newName})[newName := Node(ino, kind)] == t1[newParent][newName := Node(ino, kind)];
  }

  lemma FreshHere(c: Store, m: map<(nat, EncName), LsEntry>, nonce: nat, d: nat, name: Name)
    requires FreshNonce(c, m, nonce) && IsDirIn(c, d) && Ordinary(name)
    ensures EncryptFileName(name, nonce) !in c[d].dir.ls
  {
  }

  lemma StoredSame(inodes: map<nat, Attr>, c: Store, c': Store)
    requires Stored(inodes, c) && SameBodies(c, c')
    ensures Stored(inodes, c')
  {
  }

  lemma MoveSound(inodes: map<nat, Attr>, c: Store, m: map<(nat, EncName), LsEntry>, parent: nat, name: Name,
                  newParent: nat, newName: Name, nonce: nat, ino: nat, kind: Kind)
    requires Sound(inodes, c) && MetaCached(c, m) && FreshNonce(c, m, nonce)
    requires Ordinary(name) && Ordinary(newName) && IsDirIn(c, newParent)
    requires At(Tree(c), parent, name) == Some(Node(ino, kind))
    ensures newParent in Tree(c)
    ensures var c' := Moved(c, parent, name, newParent, newName, nonce, ino, kind);
            && Sound(inodes, c') && MetaCached(c', m)
            && Tree(c') == TreeMoved(Tree(c), parent, name, newParent, newName)
            && Up(c') == if kind == Directory then Up(c)[ino := newParent] else Up(c)
    ensures IsDirIn(c, parent) && HashFileName(name) in c[parent].dir.hash
    ensures kind == Directory ==> IsDirIn(c, ino)
  {
    hide Tree, Up, At, AllIndexed, Shaped, MetaCached, Moved, FreshNonce, Stored;
    EntryFacts(inodes, c, parent, name);
    FreshHere(c, m, nonce, newParent, newName);
    MoveTree(c, parent, name, newParent, newName, nonce, ino, kind);
    MoveShaped(inodes, Tree(c), Up(c), parent, name, newParent, newName);
    StoredSame(inodes, c, Moved(c, parent, name, newParent, newName, nonce, ino, kind));
    MoveMeta(c, m, parent, name, newParent, newName, nonce, ino, kind);
  }

  lemma InsertMeta(c: Store, m: map<(nat, EncName), LsEntry>, d: nat, name: Name, nonce: nat, ino: nat, kind: Kind)
    requires MetaCached(c, m)
    requires name == PARENT || (Ordinary(name) && forall p :: p in m && p.1.Sealed? ==> p.1.nonce != nonce)
    ensures MetaCached(Insert(c, d, name, nonce, ino, kind), m)
  {
  }

  lemma MoveMeta(c: Store, m: map<(nat, EncName), LsEntry>, parent: nat, name: Name,
                 newParent: nat, newName: Name, nonce: nat, ino: nat, kind: Kind)
    requires MetaCached(c, m) && FreshNonce(c, m, nonce) && Ordinary(newName)
    ensures MetaCached(Moved(c, parent, name, newParent, newName, nonce, ino, kind), m)
  {
    hide MetaCached, Erase, Insert;
    EraseMeta(c, m, parent, name);
    var c1 := Erase(c, parent, name);
    EraseMeta(c1, m, newParent, newName);
    var c2 := EraseIf(c1, newParent, newName);
    InsertMeta(c2, m, newParent, newName, nonce, ino, kind);
    InsertMeta(Insert(c2, newParent, newName, nonce, ino, kind), m, ino, PARENT, nonce, newParent, Directory);
  }

  lemma DirExists(inodes: map<nat, Attr>, c: Store, d: nat)
    requires Sound(inodes, c) && IsDirIn(c, d)
    ensures d in inodes
  {
  }

  /** Caching what is stored. */
  lemma MetaPut(c: Store, m: map<(nat, EncName), LsEntry>, d: nat, e: EncName)
    requires MetaCached(c, m) && IsDirIn(c, d) && e in c[d].dir.ls
    requires e == EncSelf ==> c[d].dir.ls[e] == LsEntry(d, Directory)
    requires e == EncParent ==> c[d].dir.ls[e].kind == Directory
    ensures MetaCached(c, m[(d, e) := c[d].dir.ls[e]])
    ensures (d, e) in m && e != EncParent ==> m[(d, e)] == c[d].dir.ls[e]
  {
  }

  lemma SelfEntry(inodes: map<nat, Attr>, c: Store, d: nat)
    requires Sound(inodes, c) && IsDirIn(c, d)
    ensures EncSelf in c[d].dir.ls && c[d].dir.ls[EncSelf] == LsEntry(d, Directory)
    ensures EncParent in c[d].dir.ls <==> d in Up(c)
    ensures EncParent in c[d].dir.ls ==> c[d].dir.ls[EncParent] == LsEntry(Up(c)[d], Directory)
    ensures d in Up(c) <==> d != ROOT
  {
    var dir := c[d].dir;
    assert Indexed(d, dir);
    assert dir.hash[SelfKey].enc == EncSelf;
    if ParentKey in dir.hash { assert dir.hash[ParentKey].enc == EncParent; }
    if EncParent in dir.ls {
      var k :| k in dir.hash && dir.hash[k].enc == EncParent;
      assert Matches(k, EncParent);
    }
  }

  /** The cached parent links. */
  function Links(m: map<(nat, EncName), LsEntry>): map<nat, nat> {
    map p | p in m && p.1 == EncParent :: p.0 := m[p].ino
  }

  lemma LinksAt(m: map<(nat, EncName), LsEntry>, d: nat)
    ensures d in Links(m) <==> (d, EncParent) in m
    ensures d in Links(m) ==> Links(m)[d] == m[(d, EncParent)].ino
  {
    if (d, EncParent) in m { assert (d, EncParent).0 in Links(m); }
  }

  /** The parent that a directory is listed with: a cached one, though it may have moved since, or the stored one. */
  function ParentLink(up: map<nat, nat>, links: map<nat, nat>, d: nat): Option<nat> {
    if d !in up then None else Some(if d in links then links[d] else up[d])
  }

  /** No sealed name is that of a directory's own links. */
  lemma SealedOrdinary(i: nat, d: Dir, e: EncName)
    requires Indexed(i, d) && e in d.ls && e.Sealed?
    ensures Ordinary(e.name)
  {
    var k :| k in d.hash && d.hash[k].enc == e;
    assert Matches(k, e);
    NormalizeOrdinary(k.name);
  }

  lemma SoundAt(inodes: map<nat, Attr>, c: Store, d: nat)
    requires Sound(inodes, c) && IsDirIn(c, d)
    ensures Indexed(d, c[d].dir)
  {
  }

  lemma ParentCached(c: Store, m: map<(nat, EncName), LsEntry>, d: nat)
    requires MetaCached(c, m)
    ensures (d, EncParent) in m ==> m[(d, EncParent)].kind == Directory
  {
  }

  /** Whatever is listed under another name than the own links is sealed. */
  lemma ListedSealed(d: Dir, encs: seq<EncName>, list: seq<DirEntry>, i: nat)
    requires Lists(d, encs, list) && i < |list|
    ensures |encs| == |list| && (list[i].name != DOT && list[i].name != DOTDOT ==> encs[i].Sealed?)
  {
  }

  lemma OnceNamed(encs: seq<EncName>, list: seq<DirEntry>, e: EncName, x: DirEntry)
    requires |encs| == |list| && e in encs && forall i, j :: 0 <= i < j < |encs| ==> encs[i] != encs[j]
    requires forall i :: 0 <= i < |encs| ==> if encs[i] == e then list[i] == x else list[i].name != x.name
    ensures Once(list, x)
  {
    var i :| 0 <= i < |encs| && encs[i] == e;
    assert list[i] == x;
  }

  /** A listing has the directory's own links once each, `..` as it is cached. */
  lemma LinksAre(inodes: map<nat, Attr>, c: Store, m: map<(nat, EncName), LsEntry>, d: nat,
                 encs: seq<EncName>, list: seq<DirEntry>)
    requires Sound(inodes, c) && MetaCached(c, m) && IsDirIn(c, d) && Lists(c[d].dir, encs, list)
    requires forall i :: 0 <= i < |list| && encs[i] == EncParent ==>
               LsEntry(list[i].ino, list[i].kind) == Recalled(m, d, c[d].dir.ls, EncParent)
    ensures LinksListed(d, list, ParentLink(Up(c), Links(m), d))
  {
    hide Sound, MetaCached, Indexed, Up, Links, AllIndexed, Once;
    var dir := c[d].dir;
    SelfEntry(inodes, c, d);
    LinksAt(m, d);
    SoundAt(inodes, c, d);
    ParentCached(c, m, d);
    forall i | 0 <= i < |encs| && encs[i].Sealed? ensures list[i].name != DOT && list[i].name != DOTDOT {
      SealedOrdinary(d, dir, encs[i]);
    }
    OnceNamed(encs, list, EncSelf, DirEntry(DOT, d, Directory));
    if EncParent in dir.ls {
      OnceNamed(encs, list, EncParent, DirEntry(DOTDOT, ParentLink(Up(c), Links(m), d).value, Directory));
    }
  }

  /**
   * Lookup and listing agree: every named child is listed once, under its normalised name and with its
   * inode and kind, and every listed sealed name is a named child's.
   */
  lemma ListingAgrees(inodes: map<nat, Attr>, c: Store, d: nat, encs: seq<EncName>, list: seq<DirEntry>)
    requires Sound(inodes, c) && IsDirIn(c, d) && Lists(c[d].dir, encs, list)
    ensures forall n :: At(Tree(c), d, n).Some? ==>
              exists i :: 0 <= i < |list| && encs[i].Sealed? &&
                list[i] == DirEntry(Normalize(n), At(Tree(c), d, n).value.ino, At(Tree(c), d, n).value.kind)
    ensures forall i :: 0 <= i < |list| && encs[i].Sealed? ==>
              exists n :: At(Tree(c), d, n) == Some(Node(list[i].ino, list[i].kind)) && list[i].name == Normalize(n)
    ensures |list| == |c[d].dir.ls|
  {
    hide AllIndexed, At, Tree;
    forall n | At(Tree(c), d, n).Some?
      ensures exists i :: 0 <= i < |list| && encs[i].Sealed? &&
                list[i] == DirEntry(Normalize(n), At(Tree(c), d, n).value.ino, At(Tree(c), d, n).value.kind)
    {
      var i := NamedIsListed(c, d, encs, list, n);
    }
    forall i | 0 <= i < |list| && encs[i].Sealed?
      ensures exists n :: At(Tree(c), d, n) == Some(Node(list[i].ino, list[i].kind)) && list[i].name == Normalize(n)
    {
      var n := ListedIsNamed(c, d, encs, list, i);
    }
    DistinctCount(encs, c[d].dir.ls.Keys);
  }

  lemma NamedIsListed(c: Store, d: nat, encs: seq<EncName>, list: seq<DirEntry>, n: Name) returns (i: nat)
    requires AllIndexed(c) && IsDirIn(c, d) && Lists(c[d].dir, encs, list) && At(Tree(c), d, n).Some?
    ensures i < |list| == |encs| && encs[i].Sealed?
    ensures list[i] == DirEntry(Normalize(n), At(Tree(c), d, n).value.ino, At(Tree(c), d, n).value.kind)
  {
    var dir := c[d].dir;
    EntriesAt(dir, n);
    assert Indexed(d, dir);
    var e := dir.hash[Digest(n)].enc;
    assert Matches(Digest(n), e) && e in dir.ls && e in encs;
    i :| 0 <= i < |encs| && encs[i] == e;
  }

  lemma ListedIsNamed(c: Store, d: nat, encs: seq<EncName>, list: seq<DirEntry>, i: nat) returns (n: Name)
    requires AllIndexed(c) && IsDirIn(c, d) && Lists(c[d].dir, encs, list)
    requires i < |list| == |encs| && encs[i].Sealed?
    ensures At(Tree(c), d, n) == Some(Node(list[i].ino, list[i].kind)) && list[i].name == Normalize(n)
  {
    var dir := c[d].dir;
    assert Indexed(d, dir);
    var k :| k in dir.hash && dir.hash[k].enc == encs[i];
    assert Matches(k, encs[i]);
    n := k.name;
    EntriesAt(dir, n);
  }

  lemma {:induction false} DistinctCount<T>(xs: seq<T>, s: set<T>)
    requires forall i, j :: 0 <= i < j < |xs| ==> xs[i] != xs[j]
    requires forall x :: x in xs <==> x in s
    ensures |xs| == |s|
  {
    if xs == [] {
      assert s == {};
    } else {
      var x, rest := xs[|xs| - 1], xs[..|xs| - 1];
      forall y ensures y in rest <==> y in s - {x} {
        if y in s - {x} { assert y in xs; }
      }
      DistinctCount(rest, s - {x});
    }
  }

  /** A listed name leads back to the same inode exactly when the name has no separator in it. */
  lemma ListedNameResolves(inodes: map<nat, Attr>, c: Store, d: nat, n: Name)
    requires Sound(inodes, c) && At(Tree(c), d, n).Some?
    ensures Normalize(n) == n <==> !HasSeparator(n)
    ensures (At(Tree(c), d, Normalize(n)).Some? &&
             At(Tree(c), d, Normalize(n)).value.ino == At(Tree(c), d, n).value.ino) <==> !HasSeparator(n)
  {
    hide Indexed, Entries, AllIndexed, Tree;
    NormalizeFixes(n);
    assert Single(Tree(c));
  }

  /** A new attribute of the same kind keeps the tree sound. */
  lemma AttrOnly(inodes: map<nat, Attr>, c: Store, ino: nat, attr: Attr)
    requires Sound(inodes, c) && ino in inodes && inodes[ino].kind == attr.kind
    ensures Sound(inodes[ino := attr], c)
  {
    hide Indexed, Entries, At;
  }

  lemma RootIndexed()
    ensures var d := AddTo(Dir(map[], map[]), SelfKey, EncSelf, ROOT, Directory);
            Indexed(ROOT, d) && Entries(d) == map[]
  {
    var d := AddTo(Dir(map[], map[]), SelfKey, EncSelf, ROOT, Directory);
    assert d.hash[SelfKey].enc == EncSelf;
  }
}
