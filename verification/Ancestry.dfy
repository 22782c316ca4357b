/** Which directories still reach the root after a move: nothing checks that a directory is not moved below itself. */
module Ancestry {
  import opened Bytes
  import opened Names
  import opened Directories
  import opened Attributes
  import opened Namespace
  import opened NamespaceRuns

  /** Where `n` steps along the parent links lead. */
  function Climb(up: map<nat, nat>, d: nat, n: nat): nat
    decreases n
  {
    if n == 0 || d !in up then d else Climb(up, up[d], n - 1)
  }

  ghost predicate Below(up: map<nat, nat>, d: nat, top: nat) {
    exists n: nat :: Climb(up, d, n) == top
  }

  ghost predicate Rooted(up: map<nat, nat>, d: nat) {
    Below(up, d, ROOT)
  }

  lemma {:induction false} ClimbSplit(up: map<nat, nat>, d: nat, n: nat, m: nat)
    ensures Climb(up, d, n + m) == Climb(up, Climb(up, d, n), m)
    decreases n
  {
    if n == 0 {
    } else if d in up {
      ClimbSplit(up, up[d], n - 1, m);
    } else {
      ClimbStuck(up, d, m);
      ClimbStuck(up, d, n + m);
    }
  }

  lemma ClimbStuck(up: map<nat, nat>, d: nat, n: nat)
    ensures d !in up ==> Climb(up, d, n) == d
  {
  }

  /** A climb that does not pass `m` is not affected by relinking it. */
  lemma {:induction false} ClimbAround(up: map<nat, nat>, m: nat, np: nat, d: nat, n: nat)
    requires !Below(up, d, m)
    ensures Climb(up[m := np], d, n) == Climb(up, d, n)
    decreases n
  {
    assert Climb(up, d, 0) == d;
    if n > 0 && d in up {
      forall k: nat ensures Climb(up, up[d], k) != m {
        assert Climb(up, d, k + 1) == Climb(up, up[d], k);
      }
      ClimbAround(up, m, np, up[d], n - 1);
    }
  }

  /** The first steps of a climb to `m`, before `m` is met, are the same after relinking it. */
  lemma {:induction false} ClimbUntil(up: map<nat, nat>, m: nat, np: nat, d: nat, k: nat)
    requires Climb(up, d, k) == m && m in up
    ensures Below(up[m := np], d, m)
    decreases k
  {
    var up' := up[m := np];
    if d == m {
      assert Climb(up', d, 0) == m;
    } else if d !in up {
      ClimbStuck(up, d, k);
    } else {
      ClimbUntil(up, m, np, up[d], k - 1);
      var j: nat :| Climb(up', up[d], j) == m;
      assert Climb(up', d, j + 1) == m;
    }
  }

  /** A climb that is yet to arrive has a next step. */
  lemma MustGoOn(up: map<nat, nat>, d: nat, i: nat, k: nat, m: nat)
    requires i <= k && Climb(up, d, k) == m && Climb(up, d, i) != m
    ensures i < k && Climb(up, d, i) in up
  {
    ClimbSplit(up, d, i, k - i);
    ClimbStuck(up, Climb(up, d, i), k - i);
  }

  /** Once `m` is linked below itself, a climb from `m` stays on the cycle. */
  lemma {:induction false} CycleStays(up: map<nat, nat>, m: nat, np: nat, k: nat, n: nat) returns (j: nat)
    requires m in up && Climb(up, np, k) == m
    ensures j <= k && Climb(up[m := np], np, n) == Climb(up, np, j)
    decreases n
  {
    if n == 0 {
      j := 0;
    } else {
      var up' := up[m := np];
      var i := CycleStays(up, m, np, k, n - 1);
      var x := Climb(up, np, i);
      ClimbSplit(up', np, n - 1, 1);
      if x == m {
        j := 0;
        assert Climb(up', x, 1) == Climb(up', np, 0);
      } else {
        ClimbSplit(up, np, i, 1);
        MustGoOn(up, np, i, k, m);
        j := i + 1;
        assert Climb(up', x, 1) == Climb(up', up[x], 0);
        assert Climb(up, x, 1) == Climb(up, up[x], 0);
      }
    }
  }

  lemma RootStops(up: map<nat, nat>, d: nat, i: nat, k: nat)
    requires ROOT !in up && Climb(up, d, i) == ROOT && i <= k
    ensures Climb(up, d, k) == ROOT
  {
    ClimbSplit(up, d, i, k - i);
    ClimbStuck(up, ROOT, k - i);
  }

  /** Whoever is below `m` shares its fate; whoever is not is unaffected. */
  lemma MoveBelow(up: map<nat, nat>, m: nat, np: nat, d: nat)
    requires ROOT !in up && m in up
    ensures !Below(up, d, m) ==> (Rooted(up[m := np], d) <==> Rooted(up, d))
    ensures Below(up, d, m) ==> (Rooted(up[m := np], d) <==> Rooted(up[m := np], np))
  {
    var up' := up[m := np];
    if !Below(up, d, m) {
      forall n: nat ensures Climb(up', d, n) == Climb(up, d, n) { ClimbAround(up, m, np, d, n); }
      assert forall n: nat :: Climb(up', d, n) == ROOT <==> Climb(up, d, n) == ROOT;
    } else {
      var k0: nat :| Climb(up, d, k0) == m;
      ClimbUntil(up, m, np, d, k0);
      var k: nat :| Climb(up', d, k) == m;
      forall n: nat ensures Climb(up', d, k + 1 + n) == Climb(up', np, n) {
        ClimbSplit(up', d, k, 1 + n);
        assert Climb(up', m, 1 + n) == Climb(up', np, n);
      }
      if Rooted(up', np) {
        var n: nat :| Climb(up', np, n) == ROOT;
        assert Climb(up', d, k + 1 + n) == ROOT;
      }
      if Rooted(up', d) {
        var n: nat :| Climb(up', d, n) == ROOT;
        RootStops(up', d, n, k + 1 + n);
        assert Climb(up', np, n) == ROOT;
      }
    }
  }

  /**
   * After moving directory `m` under `np`, exactly these rooted directories stay rooted: all of them when
   * `np` is not below `m`, and otherwise those that are not below `m`.
   */
  lemma MoveRooted(up: map<nat, nat>, m: nat, np: nat, d: nat)
    requires ROOT !in up && m in up && Rooted(up, np) && Rooted(up, d)
    ensures Rooted(up[m := np], d) <==> !(Below(up, d, m) && Below(up, np, m))
  {
    var up' := up[m := np];
    MoveBelow(up, m, np, d);
    MoveBelow(up, m, np, np);
    if Below(up, np, m) {
      var k: nat :| Climb(up, np, k) == m;
      if Rooted(up', np) {
        var n: nat :| Climb(up', np, n) == ROOT;
        var j := CycleStays(up, m, np, k, n);
        RootStops(up, np, j, k);
        assert false;
      }
    }
  }

  /** The root has no parent link. */
  lemma RootIsTop(inodes: map<nat, Attr>, c: Store)
    requires Sound(inodes, c)
    ensures ROOT !in Up(c)
  {
    if ROOT in c && c[ROOT].DirBody? { assert Indexed(ROOT, c[ROOT].dir); }
  }

  /**
   * Moving a directory cuts it, and everything below it, off from the root exactly when its new parent is
   * itself or below it.
   */
  method RenameDir(fs: EncryptedFs, parent: nat, name: Name, newParent: nat, newName: Name, nonce: nat, now: nat)
    returns (r: FsResult<()>)
    requires fs.Valid() && Ordinary(name) && Ordinary(newName) && FreshNonce(fs.contents, fs.metaCache, nonce)
    requires At(Tree(fs.contents), parent, name).Some? && At(Tree(fs.contents), parent, name).value.kind == Directory
    requires Rooted(Up(fs.contents), newParent)
    modifies fs
    ensures fs.Valid()
    ensures r.Success? && !(parent == newParent && name == newName) ==>
              var m := old(At(Tree(fs.contents), parent, name).value.ino);
              forall d :: old(Rooted(Up(fs.contents), d)) ==>
                (Rooted(Up(fs.contents), d) <==>
                 !(old(Below(Up(fs.contents), d, m)) && old(Below(Up(fs.contents), newParent, m))))
  {
    ghost var up, m := Up(fs.contents), At(Tree(fs.contents), parent, name).value.ino;
    RootIsTop(fs.inodes, fs.contents);
    UpOf(fs.inodes, fs.contents, parent, name);
    hide Sound, MetaCached, AttrCached, Tree, Up, TreeMoved, At, FreshNonce, Rooted, Below;
    r := fs.Rename(parent, name, newParent, newName, nonce, now);
    if r.Success? && !(parent == newParent && name == newName) {
      forall d | Rooted(up, d)
        ensures Rooted(Up(fs.contents), d) <==> !(Below(up, d, m) && Below(up, newParent, m))
      {
        MoveRooted(up, m, newParent, d);
      }
    }
  }

  // ---- over whole runs -------------------------------------------------------------------------

  /** A directory with an entry in some directory. */
  ghost predicate Entered(t: Forest, d: nat) {
    exists p, n :: At(t, p, n) == Some(Node(d, Directory))
  }

  /** The root is reached from `d` in `n` steps, each to the directory that holds the entry. */
  ghost predicate ReachedIn(v: View, d: nat, n: nat)
    decreases n
  {
    d == ROOT || (n > 0 && Entered(v.tree, d) && d in v.up && ReachedIn(v, v.up[d], n - 1))
  }

  /** The directory has a path from the root. */
  ghost predicate Reached(v: View, d: nat) {
    exists n: nat :: ReachedIn(v, d, n)
  }

  /** Every directory that has an entry has a path from the root. */
  ghost predicate Whole(v: View) {
    forall d :: Entered(v.tree, d) ==> Reached(v, d)
  }

  lemma ReachedUp(v: View, d: nat)
    ensures Reached(v, d) <==> d == ROOT || (Entered(v.tree, d) && d in v.up && Reached(v, v.up[d]))
  {
    if d == ROOT {
      assert ReachedIn(v, d, 0);
    } else {
      if Reached(v, d) {
        var n: nat :| ReachedIn(v, d, n);
        assert ReachedIn(v, v.up[d], n - 1);
      }
      if Entered(v.tree, d) && d in v.up && Reached(v, v.up[d]) {
        var n: nat :| ReachedIn(v, v.up[d], n);
        assert ReachedIn(v, d, n + 1);
      }
    }
  }

  lemma {:induction false} ReachedIsRooted(v: View, d: nat, n: nat)
    requires ReachedIn(v, d, n)
    ensures Rooted(v.up, d)
    decreases n
  {
    if d == ROOT {
      assert Climb(v.up, d, 0) == ROOT;
    } else {
      ReachedIsRooted(v, v.up[d], n - 1);
      var k: nat :| Climb(v.up, v.up[d], k) == ROOT;
      assert Climb(v.up, d, k + 1) == ROOT;
    }
  }

  /** A path is kept up to `top` if its directories keep their entries and links, and `top` is still reached. */
  lemma {:induction false} PathKept(v: View, w: View, d: nat, n: nat, keep: set<nat>, top: nat)
    requires ReachedIn(v, d, n) && Reached(w, top)
    requires d == ROOT || d == top || d in keep
    requires forall x :: x in keep && Entered(v.tree, x) && x in v.up ==>
               && Entered(w.tree, x) && x in w.up && w.up[x] == v.up[x]
               && (v.up[x] == ROOT || v.up[x] == top || v.up[x] in keep)
    ensures Reached(w, d)
    decreases n
  {
    if d != ROOT && d != top { PathKept(v, w, v.up[d], n - 1, keep, top); }
    ReachedUp(w, d);
  }

  /** In a whole view a path leads over directories with entries, each linked to the holder of its entry. */
  lemma WholeUp(v: View, x: nat)
    requires Formed(v) && Whole(v) && Entered(v.tree, x)
    ensures x in v.up && x != ROOT && (v.up[x] == ROOT || Entered(v.tree, v.up[x]))
    ensures v.up[x] in v.tree && v.tree[v.up[x]] != map[] && x in v.inodes && v.inodes[x].kind == Directory
  {
    var p, n :| At(v.tree, p, n) == Some(Node(x, Directory));
    ReachedUp(v, x);
    ReachedUp(v, v.up[x]);
  }

  /** A path does not lead over what has no entry. */
  lemma {:induction false} PathAvoids(v: View, d: nat, n: nat, m: nat, k: nat)
    requires ROOT !in v.up && ReachedIn(v, d, n) && m != ROOT && !Entered(v.tree, m)
    ensures Climb(v.up, d, k) != m
    decreases n
  {
    if d == ROOT {
      ClimbStuck(v.up, ROOT, k);
    } else if k > 0 {
      PathAvoids(v, v.up[d], n - 1, m, k - 1);
    }
  }

  /** The operation gives directory `d` an entry in directory `p`. */
  ghost predicate Enters(v: View, op: FsOp, ino: nat, d: nat, p: nat) {
    match op
    case CreateOp(q, n, attr) =>
      CreateError(v, q, n).None? && attr.kind == Directory && d == ino && p == q
    case RenameOp(q, n, r, m) =>
      && RenameError(v.inodes.Keys, v.tree, q, n, r, m).None? && !(q == r && n == m)
      && At(v.tree, q, n).value == Node(d, Directory) && p == r
    case _ => false
  }

  /** A directory is put below itself, or into one that lost its own entry when another was moved over it. */
  ghost predicate Detaches(v: View, op: FsOp, ino: nat) {
    exists d, p :: Enters(v, op, ino, d, p) && ((p != ROOT && !Entered(v.tree, p)) || Below(v.up, p, d))
  }

  ghost function EnteredDirs(v: View): (s: set<nat>)
    ensures forall x :: x in s <==> x in v.up && Entered(v.tree, x)
  {
    set x | x in v.up && Entered(v.tree, x)
  }

  /** All paths are kept, but for the directory `gone` that nothing is in. */
  lemma AllKept(v: View, w: View, gone: nat)
    requires Formed(v) && Whole(v) && (gone in v.tree ==> v.tree[gone] == map[])
    requires forall x :: Entered(v.tree, x) && x != gone ==> Entered(w.tree, x)
    requires forall x :: x in v.up && x != gone && Entered(v.tree, x) ==> x in w.up && w.up[x] == v.up[x]
    ensures forall d :: Entered(v.tree, d) && d != gone ==> Reached(w, d)
  {
    hide At, Entered;
    forall x | Entered(v.tree, x) ensures x in v.up && v.up[x] != gone && (v.up[x] == ROOT || Entered(v.tree, v.up[x])) {
      WholeUp(v, x);
    }
    forall x | Entered(v.tree, x) && v.up[x] != ROOT ensures v.up[x] in v.up { WholeUp(v, v.up[x]); }
    assert ReachedIn(w, ROOT, 0);
    forall d | Entered(v.tree, d) && d != gone ensures Reached(w, d) {
      var n: nat :| ReachedIn(v, d, n);
      PathKept(v, w, d, n, EnteredDirs(v) - {gone}, ROOT);
    }
  }

  /** Creating keeps the view whole unless a directory is made in one that has no entry. */
  lemma CreateWhole(v: View, op: FsOp, ino: nat, now: nat)
    requires Formed(v) && Whole(v) && op.CreateOp? && ino !in v.inodes && ino != ROOT
    ensures Whole(StepView(v, op, ino, now)) <==> !Detaches(v, op, ino)
  {
    var p, n, attr := op.parent, op.name, op.attr;
    if CreateError(v, p, n).None? {
      var w := StepView(v, op, ino, now);
      CreatedEntries(v, p, n, attr, ino, now);
      hide At, Entered, StepView, Below, Formed;
      FreshNotEntered(v, ino);
      AllKept(v, w, ino);
      if attr.kind == Directory {
        ReachedUp(w, ino);
        ReachedUp(w, p);
        if p == ROOT || Entered(v.tree, p) { NotAbove(v, p, ino); }
        assert Enters(v, op, ino, ino, p);
      }
    }
  }

  lemma FreshNotEntered(v: View, ino: nat)
    requires Formed(v) && ino !in v.inodes
    ensures !Entered(v.tree, ino) && ino !in v.tree
  {
  }

  /** Nothing that has a path, or is the root, is below what has no entry. */
  lemma NotAbove(v: View, p: nat, m: nat)
    requires Formed(v) && Whole(v) && (p == ROOT || Entered(v.tree, p)) && m != ROOT && !Entered(v.tree, m)
    ensures !Below(v.up, p, m)
  {
    ReachedUp(v, p);
    var n: nat :| ReachedIn(v, p, n);
    forall k: nat ensures Climb(v.up, p, k) != m { PathAvoids(v, p, n, m, k); }
  }

  lemma CreatedEntries(v: View, p: nat, n: Name, attr: Attr, ino: nat, now: nat)
    requires Formed(v) && CreateError(v, p, n).None? && ino !in v.inodes
    ensures var w := AfterCreate(v, p, n, attr, ino, now);
            && (forall x :: Entered(w.tree, x) <==> Entered(v.tree, x) || (attr.kind == Directory && x == ino))
            && w.up == if attr.kind == Directory then v.up[ino := p] else v.up
    ensures p in v.inodes
  {
    var w := AfterCreate(v, p, n, attr, ino, now);
    forall d, m
      ensures At(w.tree, d, m) == if d == p && m == n then Some(Node(ino, attr.kind)) else At(v.tree, d, m)
    {
    }
    hide At, AfterCreate;
    assert At(v.tree, p, n).None? by { EntryHere(v, p, n); }
  }

  lemma EntryHere(v: View, p: nat, n: Name)
    requires CreateError(v, p, n).None?
    ensures At(v.tree, p, n).None?
  {
  }

  /** Removing keeps the view whole. */
  lemma RemoveWhole(v: View, p: nat, n: Name, kind: Kind, now: nat)
    requires Formed(v) && Whole(v)
    ensures Whole(AfterRemove(v, p, n, kind, now))
  {
    if RemoveError(v.tree, p, n, kind).None? {
      var i := At(v.tree, p, n).value.ino;
      RemovedEntries(v, p, n, kind, now);
      hide At, Entered, AfterRemove, Formed;
      AllKept(v, AfterRemove(v, p, n, kind, now), i);
    }
  }

  lemma RemovedEntries(v: View, p: nat, n: Name, kind: Kind, now: nat)
    requires Formed(v) && RemoveError(v.tree, p, n, kind).None?
    ensures var i, w := At(v.tree, p, n).value.ino, AfterRemove(v, p, n, kind, now);
            && (forall x :: Entered(w.tree, x) <==> Entered(v.tree, x) && x != i)
            && w.up == v.up - {i} && (i in v.tree ==> v.tree[i] == map[])
  {
    var i, w := At(v.tree, p, n).value.ino, AfterRemove(v, p, n, kind, now);
    forall d, m ensures At(w.tree, d, m) == if d == p && m == n then None else At(v.tree, d, m) {}
    hide At, AfterRemove;
  }

  /** What a move that is not refused does to single entries. */
  lemma MovedAt(v: View, p: nat, n: Name, q: nat, m: Name, now: nat)
    requires RenameError(v.inodes.Keys, v.tree, p, n, q, m).None? && !(p == q && n == m)
    ensures At(v.tree, p, n).Some? && q in v.tree
    ensures var over := At(v.tree, q, m);
            over.Some? ==> v.tree[q] != map[] && (over.value.ino in v.tree && over.value.kind == Directory ==>
              v.tree[over.value.ino] == map[])
    ensures var node, w := At(v.tree, p, n).value, AfterRename(v, p, n, q, m, now);
            && (forall d, l :: At(w.tree, d, l) ==
                  if d == q && l == m then Some(node) else if d == p && l == n then None else At(v.tree, d, l))
            && w.up == (if node.kind == Directory then v.up[node.ino := q] else v.up)
  {
    if At(v.tree, q, m).Some? { assert m in v.tree[q]; }
  }

  /** `gone` is what a move is made over, or nothing. */
  lemma MovedEntries(v: View, p: nat, n: Name, q: nat, m: Name, now: nat) returns (gone: nat)
    requires Formed(v) && RenameError(v.inodes.Keys, v.tree, p, n, q, m).None? && !(p == q && n == m)
    ensures At(v.tree, p, n).Some? && q != gone && q in v.tree && (gone in v.tree ==> v.tree[gone] == map[])
    ensures var node, w := At(v.tree, p, n).value, AfterRename(v, p, n, q, m, now);
            && (forall x :: Entered(w.tree, x) <==> Entered(v.tree, x) && x != gone)
            && w.up == (if node.kind == Directory then v.up[node.ino := q] else v.up)
            && (node.kind == Directory ==> Entered(v.tree, node.ino) && node.ino != gone && node.ino in v.up)
  {
    var node, w, over := At(v.tree, p, n).value, AfterRename(v, p, n, q, m, now), At(v.tree, q, m);
    gone := SomeNatOutside(v.inodes.Keys);
    FreshNotEntered(v, gone);
    MovedAt(v, p, n, q, m, now);
    if over.Some? { gone := over.value.ino; }
    EntriesMoved(v, w, p, n, q, m, gone);
  }

  lemma EntriesMoved(v: View, w: View, p: nat, n: Name, q: nat, m: Name, gone: nat)
    requires Single(v.tree) && At(v.tree, p, n).Some? && !(p == q && n == m)
    requires forall d, l :: At(w.tree, d, l) ==
               if d == q && l == m then At(v.tree, p, n) else if d == p && l == n then None else At(v.tree, d, l)
    requires if At(v.tree, q, m).Some? then gone == At(v.tree, q, m).value.ino else !Entered(v.tree, gone)
    ensures forall x :: Entered(w.tree, x) <==> Entered(v.tree, x) && x != gone
  {
    hide At;
    forall x ensures Entered(w.tree, x) <==> Entered(v.tree, x) && x != gone {
      if Entered(w.tree, x) {
        var d, l :| At(w.tree, d, l) == Some(Node(x, Directory));
        if d == q && l == m { assert At(v.tree, p, n) == Some(Node(x, Directory)); }
      }
      if Entered(v.tree, x) && x != gone {
        var d, l :| At(v.tree, d, l) == Some(Node(x, Directory));
        if d == p && l == n { assert At(w.tree, q, m) == Some(Node(x, Directory)); }
      }
    }
  }

  /** Moving keeps the view whole unless a directory goes below itself or into one that has no entry. */
  lemma RenameWhole(v: View, op: FsOp, ino: nat, now: nat)
    requires Formed(v) && Whole(v) && op.RenameOp?
    ensures Whole(StepView(v, op, ino, now)) <==> !Detaches(v, op, ino)
  {
    var p, n, q, l := op.parent, op.name, op.newParent, op.newName;
    if RenameError(v.inodes.Keys, v.tree, p, n, q, l).None? && !(p == q && n == l) {
      var node, w := At(v.tree, p, n).value, StepView(v, op, ino, now);
      var gone := MovedEntries(v, p, n, q, l, now);
      hide At, Entered, StepView, Below, Formed;
      if node.kind != Directory {
        AllKept(v, w, gone);
      } else {
        assert Enters(v, op, ino, node.ino, q);
        MovedWhole(v, w, node.ino, q, gone);
        if Detaches(v, op, ino) {
          var d, r :| Enters(v, op, ino, d, r) && ((r != ROOT && !Entered(v.tree, r)) || Below(v.up, r, d));
          assert d == node.ino && r == q;
        }
      }
    }
  }

  lemma MovedWhole(v: View, w: View, m: nat, q: nat, gone: nat)
    requires Formed(v) && Whole(v) && Entered(v.tree, m) && m != gone && m in v.up
    requires forall x :: Entered(w.tree, x) <==> Entered(v.tree, x) && x != gone
    requires w.up == v.up[m := q] && q != gone && q in v.tree && (gone in v.tree ==> v.tree[gone] == map[])
    ensures Whole(w) <==> !((q != ROOT && !Entered(v.tree, q)) || Below(v.up, q, m))
  {
    hide At, Entered, Below;
    ReachedUp(w, m);
    ReachedUp(w, q);
    if q != ROOT && !Entered(v.tree, q) {
      assert !Reached(w, m);
    } else if Below(v.up, q, m) {
      MovedBelow(v, w, m, q);
    } else {
      KeptAround(v, w, m, q, gone);
      KeptThrough(v, w, m, gone);
    }
  }

  /** A directory below itself has no path. */
  lemma MovedBelow(v: View, w: View, m: nat, q: nat)
    requires Formed(v) && Whole(v) && Entered(v.tree, m) && m in v.up && (q == ROOT || Entered(v.tree, q))
    requires w.up == v.up[m := q] && Below(v.up, q, m)
    ensures !Reached(w, m)
  {
    hide At, Entered;
    ReachedUp(v, q);
    var i: nat :| ReachedIn(v, q, i);
    ReachedIsRooted(v, q, i);
    var j: nat :| ReachedIn(v, m, j);
    ReachedIsRooted(v, m, j);
    assert Climb(v.up, m, 0) == m;
    MoveRooted(v.up, m, q, m);
    if Reached(w, m) {
      var n: nat :| ReachedIn(w, m, n);
      ReachedIsRooted(w, m, n);
    }
  }

  /** The path of the new place, which is not below the moved directory, is kept. */
  lemma KeptAround(v: View, w: View, m: nat, q: nat, gone: nat)
    requires Formed(v) && Whole(v) && q != gone && (gone in v.tree ==> v.tree[gone] == map[])
    requires forall x :: Entered(w.tree, x) <==> Entered(v.tree, x) && x != gone
    requires w.up == v.up[m := q] && (q == ROOT || Entered(v.tree, q)) && !Below(v.up, q, m)
    ensures Reached(w, q)
  {
    hide At, Entered;
    var keep := set x | x in EnteredDirs(v) && x != gone && !Below(v.up, x, m);
    forall x | x in keep
      ensures x in w.up && w.up[x] == v.up[x] && (v.up[x] == ROOT || v.up[x] in keep)
    {
      WholeUp(v, x);
      assert Climb(v.up, x, 0) == x;
      forall k: nat ensures Climb(v.up, v.up[x], k) != m { assert Climb(v.up, x, k + 1) == Climb(v.up, v.up[x], k); }
      if v.up[x] != ROOT { WholeUp(v, v.up[x]); }
    }
    if q != ROOT { WholeUp(v, q); }
    ReachedUp(v, q);
    assert ReachedIn(w, ROOT, 0);
    var n: nat :| ReachedIn(v, q, n);
    PathKept(v, w, q, n, keep, ROOT);
  }

  /** So are all others, up to the root or to the moved directory. */
  lemma KeptThrough(v: View, w: View, m: nat, gone: nat)
    requires Formed(v) && Whole(v) && (gone in v.tree ==> v.tree[gone] == map[])
    requires forall x :: Entered(w.tree, x) <==> Entered(v.tree, x) && x != gone
    requires w.up.Keys == v.up.Keys && (forall x :: x in v.up && x != m ==> w.up[x] == v.up[x]) && Reached(w, m)
    ensures Whole(w)
  {
    hide At, Entered;
    var keep := EnteredDirs(v) - {gone, m};
    forall x | x in keep ensures v.up[x] == ROOT || v.up[x] == m || v.up[x] in keep {
      WholeUp(v, x);
      if v.up[x] != ROOT { WholeUp(v, v.up[x]); }
    }
    forall d | Entered(w.tree, d) ensures Reached(w, d) {
      WholeUp(v, d);
      var n: nat :| ReachedIn(v, d, n);
      PathKept(v, w, d, n, keep, m);
    }
  }

  /** One operation keeps the view whole exactly when it detaches nothing. */
  lemma StepWhole(v: View, op: FsOp, ino: nat, now: nat, r: Reply)
    requires Formed(v) && Whole(v) && Answers(v, op, ino, r)
    ensures Whole(StepView(v, op, ino, now)) <==> !Detaches(v, op, ino)
  {
    hide Formed, Whole, Entered, Below;
    match op {
      case CreateOp(_, _, _) => CreateWhole(v, op, ino, now);
      case RemoveFileOp(p, n) => RemoveWhole(v, p, n, RegularFile, now);
      case RemoveDirOp(p, n) => RemoveWhole(v, p, n, Directory, now);
      case RenameOp(_, _, _, _) => RenameWhole(v, op, ino, now);
      case _ => SameTree(v, StepView(v, op, ino, now));
    }
  }

  lemma SameTree(v: View, w: View)
    requires w.tree == v.tree && w.up == v.up && Whole(v)
    ensures Whole(w)
  {
    hide Entered;
    assert ReachedIn(w, ROOT, 0);
    forall d | Entered(v.tree, d) ensures Reached(w, d) {
      var n: nat :| ReachedIn(v, d, n);
      SamePath(v, w, d, n);
    }
  }

  lemma {:induction false} SamePath(v: View, w: View, d: nat, n: nat)
    requires w.tree == v.tree && w.up == v.up && ReachedIn(v, d, n)
    ensures ReachedIn(w, d, n)
    decreases n
  {
    if d != ROOT { SamePath(v, w, v.up[d], n - 1); }
  }

  /**
   * Over every run: all directories with an entry keep a path from the root, after every operation, exactly
   * when none puts a directory below itself or into one that lost its own entry.
   */
  lemma RunWhole(views: seq<View>, ops: seq<FsOp>, inos: seq<nat>, replies: seq<Reply>, now: nat)
    requires Traced(views, ops, inos, replies, now) && (forall v :: v in views ==> Formed(v)) && Whole(views[0])
    ensures (forall i :: 0 <= i <= |ops| ==> Whole(views[i])) <==>
            (forall i :: 0 <= i < |ops| ==> !Detaches(views[i], ops[i], inos[i]))
  {
    hide Whole, Detaches, Formed, StepView, Answers;
    if forall i :: 0 <= i < |ops| ==> !Detaches(views[i], ops[i], inos[i]) {
      for i := 0 to |ops|
        invariant forall j :: 0 <= j <= i ==> Whole(views[j])
      {
        StepWhole(views[i], ops[i], inos[i], now + i, replies[i]);
      }
    } else if forall i :: 0 <= i <= |ops| ==> Whole(views[i]) {
      var i :| 0 <= i < |ops| && Detaches(views[i], ops[i], inos[i]);
      StepWhole(views[i], ops[i], inos[i], now + i, replies[i]);
      assert Whole(views[i + 1]);
    }
  }

  /** The empty directory that another is moved over is still there, without an entry. */
  lemma MovedOver(v: View, op: FsOp, now: nat)
    requires Formed(v) && op.RenameOp? && !(op.parent == op.newParent && op.name == op.newName)
    requires RenameError(v.inodes.Keys, v.tree, op.parent, op.name, op.newParent, op.newName).None?
    requires At(v.tree, op.newParent, op.newName).Some?
    requires At(v.tree, op.newParent, op.newName).value.kind == Directory
    ensures var o, w := At(v.tree, op.newParent, op.newName).value.ino, StepView(v, op, 0, now);
            && o != ROOT && o in v.inodes && o in w.inodes && o in w.tree && w.tree[o] == map[] && !Entered(w.tree, o)
  {
    var p, n, q, m := op.parent, op.name, op.newParent, op.newName;
    var o, w := At(v.tree, q, m).value.ino, StepView(v, op, 0, now);
    MovedAt(v, p, n, q, m, now);
    EntriesMoved(v, w, p, n, q, m, o);
    assert n in v.tree[p] && m in v.tree[q];
  }

  /** No path leads to what is made in a directory that has no entry. */
  lemma MadeWithoutPath(v: View, p: nat, n: Name, attr: Attr, ino: nat, now: nat)
    requires Formed(v) && CreateError(v, p, n).None? && attr.kind == Directory && ino !in v.inodes && ino != ROOT
    requires p != ROOT && !Entered(v.tree, p)
    ensures var w := AfterCreate(v, p, n, attr, ino, now); Entered(w.tree, ino) && !Reached(w, ino)
  {
    var w := AfterCreate(v, p, n, attr, ino, now);
    CreatedEntries(v, p, n, attr, ino, now);
    hide Entered, AfterCreate, Formed;
    ReachedUp(w, ino);
    ReachedUp(w, p);
  }

  /**
   * A directory moved over an empty one, and then a new directory made in the one that was moved over: it
   * still takes the entry, to which no path leads.
   */
  method EntryWithoutPath(fs: EncryptedFs, op: FsOp, name: Name, attr: Attr, now: nat) returns (made: Reply, ino: nat)
    requires fs.Valid() && op.RenameOp? && op.OnOrdinaryNames()
    requires RenameError(fs.inodes.Keys, Tree(fs.contents), op.parent, op.name, op.newParent, op.newName).None?
    requires !(op.parent == op.newParent && op.name == op.newName)
    requires At(Tree(fs.contents), op.newParent, op.newName).Some?
    requires At(Tree(fs.contents), op.newParent, op.newName).value.kind == Directory
    requires Ordinary(name) && attr.kind == Directory
    modifies fs
    ensures made == Made(Success(ino)) && Entered(ViewOf(fs).tree, ino) && !Reached(ViewOf(fs), ino)
  {
    TreeDirs(fs.contents, op.newParent);
    fs.ByName(op.newParent, op.newName);
    ViewFormed(fs);
    hide Tree, Up, Sound, MetaCached, AttrCached, StepView, Reached, Entered, Formed;
    MovedOver(ViewOf(fs), op, now);
    var over := fs.contents[op.newParent].dir.hash[HashFileName(op.newName)].ino;
    var _, zero := Perform(fs, op, now);
    ViewFormed(fs);
    ghost var v := ViewOf(fs);
    made, ino := Perform(fs, CreateOp(over, name, attr), now);
    MadeWithoutPath(v, over, name, attr, ino, now);
  }
}
