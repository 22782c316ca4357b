/** Inode attributes and how partial updates are merged into them. */
module Attributes {
  import opened Bytes
  import opened Directories

  datatype Attr = Attr(
    kind: Kind, size: nat,
    atime: nat, mtime: nat, ctime: nat, crtime: nat,
    perm: nat, uid: nat, gid: nat, flags: nat)

  /** A partial update. */
  datatype SetAttr = SetAttr(
    size: Option<nat>,
    atime: Option<nat>, mtime: Option<nat>, ctime: Option<nat>, crtime: Option<nat>,
    perm: Option<nat>, uid: Option<nat>, gid: Option<nat>, flags: Option<nat>)

  function Later(t: nat, u: Option<nat>): nat {
    if u.Some? && u.value > t then u.value else t
  }

  function Or(x: nat, y: Option<nat>): nat {
    if y.Some? then y.value else x
  }

  /** Times only move forward; the size does too, unless it is to be overwritten. */
  function Merge(a: Attr, s: SetAttr, overwriteSize: bool): Attr {
    Attr(a.kind,
         if overwriteSize then Or(a.size, s.size) else Later(a.size, s.size),
         Later(a.atime, s.atime), Later(a.mtime, s.mtime), Later(a.ctime, s.ctime), Later(a.crtime, s.crtime),
         Or(a.perm, s.perm), Or(a.uid, s.uid), Or(a.gid, s.gid), Or(a.flags, s.flags))
  }

  /** Times, and size for writers, as an open handle carries them. */
  function TimesOf(a: Attr): SetAttr {
    SetAttr(None, Some(a.atime), Some(a.mtime), Some(a.ctime), Some(a.crtime), None, None, None, None)
  }

  function TimesAndSizeOf(a: Attr): SetAttr {
    TimesOf(a).(size := Some(a.size))
  }

  function TouchAt(now: nat): SetAttr {
    SetAttr(None, Some(now), Some(now), Some(now), None, None, None, None, None)
  }

  function AccessAt(now: nat): SetAttr {
    SetAttr(None, Some(now), None, None, None, None, None, None, None)
  }

  /** What `set_attr` stores: the merge, with the change and access times set to now. */
  function Update(a: Attr, s: SetAttr, overwriteSize: bool, now: nat): Attr {
    Merge(a, s, overwriteSize).(ctime := now, atime := now)
  }

  // ---- merging with open handles -------------------------------------------------------------

  /** `r` is the largest of `base` and what the handles carry. */
  ghost predicate Latest(base: nat, carried: set<nat>, r: nat) {
    r >= base && (forall x :: x in carried ==> r >= x) && (r == base || r in carried)
  }

  lemma LatestUnique(base: nat, carried: set<nat>, r: nat, q: nat)
    requires Latest(base, carried, r) && Latest(base, carried, q)
    ensures r == q
  {
  }

  lemma LatestMore(base: nat, carried: set<nat>, r: nat, t: nat)
    requires Latest(base, carried, r)
    ensures Latest(base, carried + {t}, Later(r, Some(t)))
  {
  }

  function Atimes(m: map<nat, Attr>): set<nat> { set h | h in m :: m[h].atime }
  function Mtimes(m: map<nat, Attr>): set<nat> { set h | h in m :: m[h].mtime }
  function Ctimes(m: map<nat, Attr>): set<nat> { set h | h in m :: m[h].ctime }
  function Crtimes(m: map<nat, Attr>): set<nat> { set h | h in m :: m[h].crtime }

  /** Each time is the latest of the stored one and those of the handles; nothing else changes. */
  ghost predicate Joined(stored: Attr, handles: map<nat, Attr>, r: Attr) {
    && Latest(stored.atime, Atimes(handles), r.atime)
    && Latest(stored.mtime, Mtimes(handles), r.mtime)
    && Latest(stored.ctime, Ctimes(handles), r.ctime)
    && Latest(stored.crtime, Crtimes(handles), r.crtime)
    && r == stored.(atime := r.atime, mtime := r.mtime, ctime := r.ctime, crtime := r.crtime)
  }

  /** There is only one such result, so the order in which handles are visited does not show. */
  lemma JoinedUnique(stored: Attr, handles: map<nat, Attr>, r: Attr, q: Attr)
    requires Joined(stored, handles, r) && Joined(stored, handles, q)
    ensures r == q
  {
    LatestUnique(stored.atime, Atimes(handles), r.atime, q.atime);
    LatestUnique(stored.mtime, Mtimes(handles), r.mtime, q.mtime);
    LatestUnique(stored.ctime, Ctimes(handles), r.ctime, q.ctime);
    LatestUnique(stored.crtime, Crtimes(handles), r.crtime, q.crtime);
  }

  lemma JoinedMore(stored: Attr, handles: map<nat, Attr>, h: nat, a: Attr, r: Attr)
    requires Joined(stored, handles, r) && h !in handles
    ensures Joined(stored, handles[h := a], Merge(r, TimesOf(a), false))
  {
    var more := handles[h := a];
    assert more[h] == a && forall g :: g in handles ==> more[g] == handles[g];
    assert Atimes(more) == Atimes(handles) + {a.atime};
    assert Mtimes(more) == Mtimes(handles) + {a.mtime};
    assert Ctimes(more) == Ctimes(handles) + {a.ctime};
    assert Crtimes(more) == Crtimes(handles) + {a.crtime};
    LatestMore(stored.atime, Atimes(handles), r.atime, a.atime);
    LatestMore(stored.mtime, Mtimes(handles), r.mtime, a.mtime);
    LatestMore(stored.ctime, Ctimes(handles), r.ctime, a.ctime);
    LatestMore(stored.crtime, Crtimes(handles), r.crtime, a.crtime);
  }

  /**
   * With the writer: each time is the latest of the stored one and those of all readers and the writer, the
   * size is the larger of the stored and the writer's, and nothing else changes.
   */
  ghost predicate JoinedWith(stored: Attr, readers: map<nat, Attr>, w: Attr, r: Attr) {
    && Latest(stored.atime, Atimes(readers) + {w.atime}, r.atime)
    && Latest(stored.mtime, Mtimes(readers) + {w.mtime}, r.mtime)
    && Latest(stored.ctime, Ctimes(readers) + {w.ctime}, r.ctime)
    && Latest(stored.crtime, Crtimes(readers) + {w.crtime}, r.crtime)
    && r.size == Max(stored.size, w.size)
    && r == stored.(size := r.size, atime := r.atime, mtime := r.mtime, ctime := r.ctime, crtime := r.crtime)
  }

  lemma JoinWriter(stored: Attr, readers: map<nat, Attr>, w: Attr, r: Attr)
    requires Joined(stored, readers, r)
    ensures JoinedWith(stored, readers, w, Merge(r, TimesAndSizeOf(w), false))
  {
    LatestMore(stored.atime, Atimes(readers), r.atime, w.atime);
    LatestMore(stored.mtime, Mtimes(readers), r.mtime, w.mtime);
    LatestMore(stored.ctime, Ctimes(readers), r.ctime, w.ctime);
    LatestMore(stored.crtime, Crtimes(readers), r.crtime, w.crtime);
  }

  /** The attributes as callers see them: stored, merged with every open reader and then the writer. */
  method GetAttr(stored: Attr, readers: map<nat, Attr>, write: Option<Attr>) returns (r: Attr)
    ensures write.None? ==> Joined(stored, readers, r)
    ensures write.Some? ==> JoinedWith(stored, readers, write.value, r)
  {
    hide Joined, JoinedWith;
    r := stored;
    var rest := readers.Keys;
    ghost var seen: map<nat, Attr> := map[];
    NoneJoined(stored);
    while rest != {}
      invariant rest <= readers.Keys
      invariant seen == map h | h in readers && h !in rest :: readers[h]
      invariant Joined(stored, seen, r)
      decreases rest
    {
      var h :| h in rest;
      JoinedMore(stored, seen, h, readers[h], r);
      r := Merge(r, TimesOf(readers[h]), false);
      seen := seen[h := readers[h]];
      rest := rest - {h};
    }
    assert seen == readers;
    if write.Some? {
      JoinWriter(stored, readers, write.value, r);
      r := Merge(r, TimesAndSizeOf(write.value), false);
    }
  }

  lemma NoneJoined(stored: Attr)
    ensures Joined(stored, map[], stored)
  {
  }

  /**
   * What an update stores, field by field: the kind stays; the access and change times are now; the other times
   * are the later of the old and the new, if a new one is given; permissions, owner, group and flags are the new
   * ones if given; the size is the new one if it is to be overwritten and given, else the larger.
   */
  lemma UpdateExactly(a: Attr, s: SetAttr, overwriteSize: bool, now: nat)
    ensures var r := Update(a, s, overwriteSize, now);
            && r.kind == a.kind && r.atime == now && r.ctime == now
            && r.mtime == Max(a.mtime, if s.mtime.Some? then s.mtime.value else 0)
            && r.crtime == Max(a.crtime, if s.crtime.Some? then s.crtime.value else 0)
            && (forall x :: s.perm == Some(x) ==> r.perm == x) && (s.perm.None? ==> r.perm == a.perm)
            && (forall x :: s.uid == Some(x) ==> r.uid == x) && (s.uid.None? ==> r.uid == a.uid)
            && (forall x :: s.gid == Some(x) ==> r.gid == x) && (s.gid.None? ==> r.gid == a.gid)
            && (forall x :: s.flags == Some(x) ==> r.flags == x) && (s.flags.None? ==> r.flags == a.flags)
            && (s.size.None? ==> r.size == a.size)
            && (s.size.Some? ==> r.size == if overwriteSize then s.size.value else Max(a.size, s.size.value))
  {
  }

  /** An update that does not overwrite the size never lowers it, nor the times it does not set to now. */
  lemma UpdateNeverLowers(a: Attr, s: SetAttr, now: nat)
    ensures Update(a, s, false, now).size >= a.size
    ensures Update(a, s, false, now).mtime >= a.mtime && Update(a, s, false, now).crtime >= a.crtime
    ensures s.size.Some? ==> Update(a, s, false, now).size >= s.size.value
    ensures s.size.Some? ==> Update(a, s, true, now).size == s.size.value
  {
  }
}
