/** Whole runs over the name space, and scenarios. */
module NamespaceRuns {
  import opened Bytes
  import opened Names
  import opened Directories
  import opened Attributes
  import opened Namespace

  function NonceOf(e: EncName): nat {
    if e.Sealed? then e.nonce else 0
  }

  lemma {:induction false} SomeNatOutside(s: set<nat>) returns (n: nat)
    ensures n > ROOT && forall x :: x in s ==> x < n
    decreases |s|
  {
    if s == {} {
      n := ROOT + 1;
    } else {
      var y :| y in s;
      var m := SomeNatOutside(s - {y});
      n := if m > y then m else y + 1;
      forall x | x in s ensures x < n {
        if x != y { assert x in s - {y}; }
      }
    }
  }

  lemma FreshNonceExists(c: Store, m: map<(nat, EncName), LsEntry>) returns (n: nat)
    ensures FreshNonce(c, m, n)
  {
    var all := (set d, e | d in c && c[d].DirBody? && e in c[d].dir.ls :: NonceOf(e)) + (set p | p in m :: NonceOf(p.1));
    n := SomeNatOutside(all);
    forall d, e | d in c && c[d].DirBody? && e in c[d].dir.ls && e.Sealed? ensures e.nonce != n {
      assert NonceOf(e) in all;
    }
    forall p | p in m && p.1.Sealed? ensures p.1.nonce != n {
      assert NonceOf(p.1) in all;
    }
  }

  datatype FsOp =
    | CreateOp(parent: nat, name: Name, attr: Attr)
    | RemoveFileOp(parent: nat, name: Name)
    | RemoveDirOp(parent: nat, name: Name)
    | RenameOp(parent: nat, name: Name, newParent: nat, newName: Name)
    | LookupOp(parent: nat, name: Name)
    | ListOp(dir: nat)
    | EvictOp(inodes: set<nat>, paths: set<(nat, EncName)>)
  {
    predicate OnOrdinaryNames() {
      match this
      case CreateOp(_, n, _) => Ordinary(n)
      case RemoveFileOp(_, n) => Ordinary(n)
      case RemoveDirOp(_, n) => Ordinary(n)
      case RenameOp(_, n, _, m) => Ordinary(n) && Ordinary(m)
      case _ => true
    }
  }

  /** A nonce that no stored or remembered name carries, as a random one does not. */
  method DrawNonce(fs: EncryptedFs) returns (nonce: nat)
    ensures FreshNonce(fs.contents, fs.metaCache, nonce)
  {
    ghost var n := FreshNonceExists(fs.contents, fs.metaCache);
    nonce :| FreshNonce(fs.contents, fs.metaCache, nonce);
  }

  /** A number that no inode has. */
  method GenerateNextInode(fs: EncryptedFs) returns (ino: nat)
    ensures ino > ROOT && ino !in fs.inodes
  {
    ghost var n := SomeNatOutside(fs.inodes.Keys);
    assert n !in fs.inodes;
    ino :| ino > ROOT && ino !in fs.inodes;
  }

  /** What callers can see of the name space: the tree, the parent links, the attributes, and the cached parent links. */
  datatype View = View(tree: Forest, up: map<nat, nat>, inodes: map<nat, Attr>, links: map<nat, nat>)

  ghost function ViewOf(fs: EncryptedFs): View
    reads fs
  {
    View(Tree(fs.contents), Up(fs.contents), fs.inodes, Links(fs.metaCache))
  }

  /** Which failure, if any, a creation meets. */
  function CreateError(v: View, parent: nat, name: Name): Option<FsError> {
    if parent !in v.inodes then Some(InodeNotFound)
    else if parent !in v.tree then Some(InvalidInodeType)
    else if name in v.tree[parent] then Some(AlreadyExists)
    else None
  }

  function AfterCreate(v: View, parent: nat, name: Name, attr: Attr, ino: nat, now: nat): View {
    if CreateError(v, parent, name).Some? then v
    else View(TreeCreated(v.tree, parent, name, Node(ino, attr.kind)),
              if attr.kind == Directory then v.up[ino := parent] else v.up,
              Touched(v.inodes[ino := attr], parent, now), v.links)
  }

  function AfterRemove(v: View, parent: nat, name: Name, kind: Kind, now: nat): View {
    if RemoveError(v.tree, parent, name, kind).Some? then v
    else
      var i := At(v.tree, parent, name).value.ino;
      View(TreeRemoved(v.tree, parent, name), v.up - {i}, Touched(v.inodes - {i}, parent, now), v.links)
  }

  function AfterRename(v: View, parent: nat, name: Name, newParent: nat, newName: Name, now: nat): View {
    if RenameError(v.inodes.Keys, v.tree, parent, name, newParent, newName).Some? then v
    else if parent == newParent && name == newName then v
    else
      var node := At(v.tree, parent, name).value;
      View(TreeMoved(v.tree, parent, name, newParent, newName),
           if node.kind == Directory then v.up[node.ino := newParent] else v.up,
           Renamed(v.inodes, parent, newParent, node.ino, now), v.links)
  }

  /** A listing touches the directory, and remembers its parent link. */
  function AfterList(v: View, d: nat, now: nat): View {
    if d !in v.tree then v
    else v.(inodes := Accessed(v.inodes, d, now),
            links := if d in v.up && d !in v.links then v.links[d := v.up[d]] else v.links)
  }

  function AfterEvict(v: View, paths: set<(nat, EncName)>): View {
    v.(links := map d | d in v.links && (d, EncParent) !in paths :: v.links[d])
  }

  /** What one operation does; `ino` is the number drawn for a creation. */
  function StepView(v: View, op: FsOp, ino: nat, now: nat): View {
    match op
    case CreateOp(p, n, attr) => AfterCreate(v, p, n, attr, ino, now)
    case RemoveFileOp(p, n) => AfterRemove(v, p, n, RegularFile, now)
    case RemoveDirOp(p, n) => AfterRemove(v, p, n, Directory, now)
    case RenameOp(p, n, q, m) => AfterRename(v, p, n, q, m, now)
    case ListOp(d) => AfterList(v, d, now)
    case EvictOp(_, paths) => AfterEvict(v, paths)
    case LookupOp(_, _) => v
  }

  datatype Reply =
    | Made(made: FsResult<nat>)
    | Done(done: FsResult<()>)
    | Found(found: FsResult<Option<Attr>>)
    | Listed(listed: FsResult<seq<DirEntry>>)
    | Evicted

  function Refusal<T>(e: Option<FsError>, otherwise: T): FsResult<T> {
    match e case Some(x) => Failure(x) case None => Success(otherwise)
  }

  /** What a lookup gives. The parent's attributes may be a removed directory's, if they are still cached. */
  predicate LookedUp(v: View, d: nat, name: Name, r: FsResult<Option<Attr>>) {
    if d !in v.inodes then r == Failure(InodeNotFound)
    else if d !in v.tree then r == Failure(InvalidInodeType)
    else if name == SELF || name == DOT then r == Success(Some(v.inodes[d]))
    else if name == PARENT || name == DOTDOT then
      if d !in v.up then r == Success(None)
      else if v.up[d] in v.inodes then r == Success(Some(v.inodes[v.up[d]]))
      else r == Failure(InodeNotFound) || (r.Success? && r.value.Some?)
    else if name !in v.tree[d] then r == Success(None)
    else v.tree[d][name].ino in v.inodes && r == Success(Some(v.inodes[v.tree[d][name].ino]))
  }

  /** A listing has every named child, the directory itself and its parent once each, and nothing else. */
  ghost predicate ListsTree(v: View, d: nat, list: seq<DirEntry>) {
    && d in v.tree
    && (forall n :: n in v.tree[d] ==> DirEntry(Normalize(n), v.tree[d][n].ino, v.tree[d][n].kind) in list)
    && (forall e :: e in list && e.name != DOT && e.name != DOTDOT ==>
          exists n :: n in v.tree[d] && e == DirEntry(Normalize(n), v.tree[d][n].ino, v.tree[d][n].kind))
    && LinksListed(d, list, ParentLink(v.up, v.links, d))
  }

  /** The reply to one operation. */
  ghost predicate Answers(v: View, op: FsOp, ino: nat, r: Reply) {
    match op
    case CreateOp(p, n, _) => r == Made(Refusal(CreateError(v, p, n), ino)) && ino > ROOT && ino !in v.inodes
    case RemoveFileOp(p, n) => r == Done(Refusal(RemoveError(v.tree, p, n, RegularFile), ()))
    case RemoveDirOp(p, n) => r == Done(Refusal(RemoveError(v.tree, p, n, Directory), ()))
    case RenameOp(p, n, q, m) => r == Done(Refusal(RenameError(v.inodes.Keys, v.tree, p, n, q, m), ()))
    case LookupOp(p, n) => r.Found? && LookedUp(v, p, n, r.found)
    case ListOp(d) =>
      r.Listed? && if d in v.tree then r.listed.Success? && ListsTree(v, d, r.listed.value)
                   else r.listed == Failure(InvalidInodeType)
    case EvictOp(_, _) => r == Evicted
  }

  /** The views before and after each operation of a run, with the numbers drawn and the replies. */
  ghost predicate Traced(views: seq<View>, ops: seq<FsOp>, inos: seq<nat>, replies: seq<Reply>, now: nat) {
    && |views| == |ops| + 1 && |inos| == |replies| == |ops|
    && forall i {:trigger ops[i]} :: 0 <= i < |ops| ==>
         views[i + 1] == StepView(views[i], ops[i], inos[i], now + i) && Answers(views[i], ops[i], inos[i], replies[i])
  }

  /** One operation on the file system is one step. */
  method Perform(fs: EncryptedFs, op: FsOp, now: nat) returns (reply: Reply, ino: nat)
    requires fs.Valid() && op.OnOrdinaryNames()
    modifies fs
    ensures fs.Valid()
    ensures ViewOf(fs) == StepView(old(ViewOf(fs)), op, ino, now) && Answers(old(ViewOf(fs)), op, ino, reply)
  {
    hide Sound, MetaCached, AttrCached, Tree, Up, Links, TreeCreated, TreeRemoved, TreeMoved, FreshNonce, ListsTree;
    hide RemoveError, RenameError, CreateError, Touched, Renamed;
    ino := 0;
    match op {
      case CreateOp(p, n, attr) =>
        reply, ino := PerformCreate(fs, p, n, attr, now);
      case RemoveFileOp(p, n) =>
        var r := fs.RemoveFile(p, n, now);
        reply := Done(r);
      case RemoveDirOp(p, n) =>
        var r := fs.RemoveDir(p, n, now);
        reply := Done(r);
      case RenameOp(p, n, q, m) =>
        var nonce := DrawNonce(fs);
        var r := fs.Rename(p, n, q, m, nonce, now);
        reply := Done(r);
      case LookupOp(p, n) =>
        var r := PerformLookup(fs, p, n);
        reply := Found(r);
      case ListOp(d) =>
        var r := PerformList(fs, d, now);
        reply := Listed(r);
      case EvictOp(out, paths) =>
        LinksEvicted(fs.metaCache, paths);
        fs.EvictAttrs(out);
        fs.EvictMeta(paths);
        reply := Evicted;
    }
  }

  method PerformCreate(fs: EncryptedFs, p: nat, n: Name, attr: Attr, now: nat) returns (reply: Reply, ino: nat)
    requires fs.Valid() && Ordinary(n)
    modifies fs
    ensures fs.Valid()
    ensures ViewOf(fs) == AfterCreate(old(ViewOf(fs)), p, n, attr, ino, now)
    ensures Answers(old(ViewOf(fs)), CreateOp(p, n, attr), ino, reply)
  {
    hide Sound, MetaCached, AttrCached, Tree, Up, TreeCreated, FreshNonce, Touched;
    TreeDirs(fs.contents, p);
    if fs.IsDir(p) { fs.ByName(p, n); }
    ino := GenerateNextInode(fs);
    var nonce := DrawNonce(fs);
    var r := fs.Create(p, n, attr, ino, nonce, now);
    reply := Made(r);
  }

  method PerformLookup(fs: EncryptedFs, p: nat, n: Name) returns (r: FsResult<Option<Attr>>)
    requires fs.Valid()
    modifies fs
    ensures fs.Valid() && ViewOf(fs) == old(ViewOf(fs)) && LookedUp(ViewOf(fs), p, n, r)
  {
    hide Sound, MetaCached, AttrCached, Tree, Up;
    TreeDirs(fs.contents, p);
    r := fs.FindByName(p, n);
  }

  method PerformList(fs: EncryptedFs, d: nat, now: nat) returns (r: FsResult<seq<DirEntry>>)
    requires fs.Valid()
    modifies fs
    ensures fs.Valid() && ViewOf(fs) == StepView(old(ViewOf(fs)), ListOp(d), 0, now)
    ensures Answers(old(ViewOf(fs)), ListOp(d), 0, Listed(r))
  {
    hide Sound, MetaCached, AttrCached, Tree, Up, Lists, Accessed, Links, LinksListed;
    TreeDirs(fs.contents, d);
    ghost var encs;
    ghost var m := fs.metaCache;
    if fs.IsDir(d) { SelfEntry(fs.inodes, fs.contents, d); }
    r, encs := fs.ReadDir(d, now);
    if fs.IsDir(d) {
      ListingIsTree(fs.inodes, fs.contents, d, encs, r.value);
      LinksRemembered(m, fs.metaCache, d, fs.contents[d].dir.ls);
    }
  }

  /** What a walk remembers of the parent links. */
  lemma LinksRemembered(m: map<(nat, EncName), LsEntry>, m': map<(nat, EncName), LsEntry>, d: nat, ls: map<EncName, LsEntry>)
    requires forall p :: p in m' <==> p in m || (p.0 == d && p.1 in ls)
    requires forall p :: p in m' ==> m'[p] == if p in m then m[p] else ls[p.1]
    ensures Links(m') == if EncParent in ls && d !in Links(m) then Links(m)[d := ls[EncParent].ino] else Links(m)
  {
    forall e: nat
      ensures (e in Links(m') <==> e in Links(m) || (e == d && EncParent in ls))
      ensures e in Links(m') ==> Links(m')[e] == if e in Links(m) then Links(m)[e] else ls[EncParent].ino
    {
      LinksAt(m, e);
      LinksAt(m', e);
    }
  }

  /** What an eviction leaves of them. */
  lemma LinksEvicted(m: map<(nat, EncName), LsEntry>, out: set<(nat, EncName)>)
    ensures Links(m - out) == map d | d in Links(m) && (d, EncParent) !in out :: Links(m)[d]
  {
    forall e: nat ensures e in Links(m - out) <==> e in Links(m) && (e, EncParent) !in out {
      LinksAt(m, e);
      LinksAt(m - out, e);
    }
    forall e: nat | e in Links(m - out) ensures Links(m - out)[e] == Links(m)[e] {
      LinksAt(m, e);
      LinksAt(m - out, e);
    }
  }

  /** A walk of the whole LS index lists the tree's entries. */
  lemma ListingIsTree(inodes: map<nat, Attr>, c: Store, d: nat, encs: seq<EncName>, list: seq<DirEntry>)
    requires Sound(inodes, c) && IsDirIn(c, d) && Lists(c[d].dir, encs, list)
    ensures d in Tree(c)
    ensures forall n :: n in Tree(c)[d] ==> DirEntry(Normalize(n), Tree(c)[d][n].ino, Tree(c)[d][n].kind) in list
    ensures forall e :: e in list && e.name != DOT && e.name != DOTDOT ==>
              exists n :: n in Tree(c)[d] && e == DirEntry(Normalize(n), Tree(c)[d][n].ino, Tree(c)[d][n].kind)
  {
    hide Sound, Tree, Lists;
    ListingAgrees(inodes, c, d, encs, list);
    TreeDirs(c, d);
    forall n | n in Tree(c)[d] ensures DirEntry(Normalize(n), Tree(c)[d][n].ino, Tree(c)[d][n].kind) in list {
      assert At(Tree(c), d, n).Some?;
    }
    forall e | e in list && e.name != DOT && e.name != DOTDOT
      ensures exists n :: n in Tree(c)[d] && e == DirEntry(Normalize(n), Tree(c)[d][n].ino, Tree(c)[d][n].kind)
    {
      var i :| 0 <= i < |list| && list[i] == e;
      ListedSealed(c[d].dir, encs, list, i);
      var n :| At(Tree(c), d, n) == Some(Node(list[i].ino, list[i].kind)) && list[i].name == Normalize(n);
      assert n in Tree(c)[d];
    }
  }

  /**
   * Every run of operations on ordinary names, with evictions anywhere, is the fold of the tree's operations,
   * each refused as coded or done with the number drawn for it, and every state on the way is sound.
   */
  method Run(fs: EncryptedFs, ops: seq<FsOp>, now: nat)
    returns (replies: seq<Reply>, inos: seq<nat>, ghost views: seq<View>)
    requires fs.Valid()
    requires forall i :: 0 <= i < |ops| ==> ops[i].OnOrdinaryNames()
    modifies fs
    ensures fs.Valid()
    ensures Traced(views, ops, inos, replies, now)
    ensures views[0] == old(ViewOf(fs)) && views[|ops|] == ViewOf(fs)
    ensures forall v :: v in views ==> Formed(v)
  {
    hide Sound, MetaCached, AttrCached, StepView, Answers, ViewOf, Formed;
    replies, inos, views := [], [], [ViewOf(fs)];
    ViewFormed(fs);
    for i := 0 to |ops|
      invariant fs.Valid() && Traced(views, ops[..i], inos, replies, now)
      invariant views[0] == old(ViewOf(fs)) && views[i] == ViewOf(fs)
      invariant forall v :: v in views ==> Formed(v)
    {
      var reply, ino := Perform(fs, ops[i], now + i);
      ViewFormed(fs);
      replies, inos, views := replies + [reply], inos + [ino], views + [ViewOf(fs)];
    }
    assert ops[..|ops|] == ops;
  }

  /** What soundness means for the view. */
  ghost predicate Formed(v: View) {
    && Shaped(v.inodes, v.tree, v.up) && ROOT !in v.up && ROOT in v.tree
    && forall d :: d in v.tree <==> d in v.inodes && v.inodes[d].kind == Directory
  }

  lemma ViewFormed(fs: EncryptedFs)
    requires fs.Valid()
    ensures Formed(ViewOf(fs))
  {
    assert Indexed(ROOT, fs.contents[ROOT].dir);
    hide Indexed, Entries, Shaped;
  }

  /** A removed file's attributes are still served, until they fall out of the cache. */
  method RemovedStillServed(fs: EncryptedFs, parent: nat, name: Name, now: nat)
    returns (removed: FsResult<()>, r: FsResult<Attr>)
    requires fs.Valid() && Ordinary(name)
    requires RemoveError(Tree(fs.contents), parent, name, RegularFile) == None
    modifies fs
    ensures var ino := At(Tree(old(fs.contents)), parent, name).value.ino;
            && removed == Success(()) && ino !in fs.inodes
            && ino in old(fs.inodes) && r == Success(old(fs.inodes)[ino])
  {
    hide Sound, MetaCached, TreeRemoved;
    EntryFacts(fs.inodes, fs.contents, parent, name);
    var ino := fs.contents[parent].dir.hash[HashFileName(name)].ino;
    removed := fs.RemoveFile(parent, name, now);
    r := fs.GetInode(ino);
  }

  /** The parent link as the LS index stores it. */
  lemma LinkStored(inodes: map<nat, Attr>, c: Store, d: nat)
    requires Sound(inodes, c) && d in Up(c)
    ensures IsDirIn(c, d) && EncParent in c[d].dir.ls && c[d].dir.ls[EncParent] == LsEntry(Up(c)[d], Directory)
  {
    assert Indexed(d, c[d].dir);
    assert c[d].dir.hash[ParentKey].enc == EncParent;
  }

  lemma UpOf(inodes: map<nat, Attr>, c: Store, parent: nat, name: Name)
    requires Sound(inodes, c) && At(Tree(c), parent, name).Some? && At(Tree(c), parent, name).value.kind == Directory
    ensures At(Tree(c), parent, name).value.ino in Up(c) && Up(c)[At(Tree(c), parent, name).value.ino] == parent
  {
    hide Indexed, Entries, Tree, Up;
  }

  /** What a move of a directory to a free place needs. */
  lemma MovableFacts(inodes: map<nat, Attr>, c: Store, parent: nat, name: Name, newParent: nat)
    requires Sound(inodes, c) && Ordinary(name) && parent != newParent
    requires At(Tree(c), parent, name).Some? && At(Tree(c), parent, name).value.kind == Directory
    requires newParent in Tree(c) && At(Tree(c), newParent, name).None?
    ensures IsDirIn(c, parent) && HashFileName(name) in c[parent].dir.hash
    ensures var ino := c[parent].dir.hash[HashFileName(name)].ino;
            && At(Tree(c), parent, name).value.ino == ino
            && IsDirIn(c, ino) && EncParent in c[ino].dir.ls && c[ino].dir.ls[EncParent].ino == parent
    ensures RenameError(inodes.Keys, Tree(c), parent, name, newParent, name) == None
  {
    hide Tree, Up, Indexed, Entries;
    EntryFacts(inodes, c, parent, name);
    TreeDirs(c, newParent);
    UpOf(inodes, c, parent, name);
    LinkStored(inodes, c, At(Tree(c), parent, name).value.ino);
    DirExists(inodes, c, newParent);
  }

  /**
   * A directory listed before it moves is listed afterwards with its old parent: the cached `$..` is not
   * refreshed, although the stored link is.
   */
  method StaleParentLink(fs: EncryptedFs, parent: nat, name: Name, newParent: nat, now: nat)
    returns (moved: FsResult<()>, listed: nat, stored: nat)
    requires fs.Valid() && Ordinary(name) && parent != newParent
    requires At(Tree(fs.contents), parent, name).Some? && At(Tree(fs.contents), parent, name).value.kind == Directory
    requires newParent in Tree(fs.contents) && At(Tree(fs.contents), newParent, name).None?
    requires (At(Tree(fs.contents), parent, name).value.ino, EncParent) !in fs.metaCache
    modifies fs
    ensures moved == Success(()) && listed == parent && stored == newParent
  {
    hide Sound, MetaCached, AttrCached, Tree, Up, TreeMoved, At, FreshNonce;
    MovableFacts(fs.inodes, fs.contents, parent, name, newParent);
    var ino := fs.contents[parent].dir.hash[HashFileName(name)].ino;
    var before := fs.ReadEntry(ino, EncParent);
    var nonce := DrawNonce(fs);
    moved := fs.Rename(parent, name, newParent, name, nonce, now);
    LinkStored(fs.inodes, fs.contents, ino);
    var after := fs.ReadEntry(ino, EncParent);
    listed, stored := after.ino, fs.contents[ino].dir.ls[EncParent].ino;
  }
}
