/**
 * The reference-counted lock table as a machine of interleaved atomic steps. A lookup takes the read
 * lock, then bumps the counter; a drop decrements without any lock and only later purges under the
 * write lock, one key at a time, while other holders go on decrementing.
 */
module ArcHashMap {
  import opened Bytes

  /** A holder's life: in use, decremented but not yet purging, or scanning under the write lock. */
  datatype Phase<K> = Live | Dropped | Purging(scanned: set<K>)

  datatype Holder<K> = Holder(key: K, entry: nat, phase: Phase<K>)

  /** A call in progress: under the read lock after its lookup, or under the write lock after its insert. */
  datatype Call<K> = Reading(key: K, found: Option<nat>) | Inserting(key: K, entry: nat)

  datatype Entry<V> = Entry(value: V, count: nat)

  datatype State<K, V> = State(
    table: map<K, nat>,           // key to shared entry
    entries: map<nat, Entry<V>>,  // every entry ever allocated
    calls: map<nat, Call<K>>,
    holders: map<nat, Holder<K>>)

  datatype Step<K, V> =
    | GetBegin(t: nat, key: K)
    | GetEnd(t: nat, h: nat)
    | InsertBegin(t: nat, key: K, value: V, spare: nat)
    | InsertEnd(t: nat, h: nat)
    | Decrement(h: nat)
    | PurgeBegin(h: nat)
    | PurgeScan(h: nat, key: K)
    | PurgeEnd(h: nat)

  function Init<K, V>(): State<K, V> {
    State(map[], map[], map[], map[])
  }

  // ---- the read-write lock, as seen from who is inside -------------------------------------

  ghost predicate ReadLocked<K, V>(s: State<K, V>) {
    exists t :: t in s.calls && s.calls[t].Reading?
  }

  ghost predicate WriteLocked<K, V>(s: State<K, V>) {
    || (exists t :: t in s.calls && s.calls[t].Inserting?)
    || (exists h :: h in s.holders && s.holders[h].phase.Purging?)
  }

  // ---- steps ------------------------------------------------------------------------------

  ghost predicate Enabled<K, V>(s: State<K, V>, a: Step<K, V>) {
    match a
    case GetBegin(t, _) => t !in s.calls && !WriteLocked(s)
    case GetEnd(t, h) => t in s.calls && s.calls[t].Reading? && h !in s.holders
    case InsertBegin(t, _, _, spare) =>
      t !in s.calls && !WriteLocked(s) && !ReadLocked(s) && spare !in s.entries
    case InsertEnd(t, h) => t in s.calls && s.calls[t].Inserting? && h !in s.holders
    case Decrement(h) => h in s.holders && s.holders[h].phase.Live?
    case PurgeBegin(h) =>
      h in s.holders && s.holders[h].phase.Dropped? && !WriteLocked(s) && !ReadLocked(s)
    case PurgeScan(h, k) =>
      h in s.holders && s.holders[h].phase.Purging? && k in s.table && k !in s.holders[h].phase.scanned
    case PurgeEnd(h) =>
      h in s.holders && s.holders[h].phase.Purging? && s.table.Keys <= s.holders[h].phase.scanned
  }

  /** `fetch_add` and `fetch_sub` on an entry's counter. */
  function Add<V>(entries: map<nat, Entry<V>>, e: nat, d: int): map<nat, Entry<V>> {
    if e in entries && entries[e].count + d >= 0
    then entries[e := entries[e].(count := entries[e].count + d)]
    else entries
  }

  function Do<K, V>(s: State<K, V>, a: Step<K, V>): State<K, V> {
    match a
    case GetBegin(t, k) =>
      s.(calls := s.calls[t := Reading(k, if k in s.table then Some(s.table[k]) else None)])
    case GetEnd(t, h) =>
      if t !in s.calls || !s.calls[t].Reading? then s else
      var call := s.calls[t];
      if call.found.None? then s.(calls := s.calls - {t}) else
      s.(calls := s.calls - {t},
         entries := Add(s.entries, call.found.value, 1),
         holders := s.holders[h := Holder(call.key, call.found.value, Live)])
    case InsertBegin(t, k, v, spare) =>
      if k in s.table then s.(calls := s.calls[t := Inserting(k, s.table[k])]) else
      s.(calls := s.calls[t := Inserting(k, spare)],
         table := s.table[k := spare],
         entries := s.entries[spare := Entry(v, 0)])
    case InsertEnd(t, h) =>
      if t !in s.calls || !s.calls[t].Inserting? then s else
      var call := s.calls[t];
      s.(calls := s.calls - {t},
         entries := Add(s.entries, call.entry, 1),
         holders := s.holders[h := Holder(call.key, call.entry, Live)])
    case Decrement(h) =>
      if h !in s.holders then s else
      s.(entries := Add(s.entries, s.holders[h].entry, -1),
         holders := s.holders[h := s.holders[h].(phase := Dropped)])
    case PurgeBegin(h) =>
      if h !in s.holders then s else
      s.(holders := s.holders[h := s.holders[h].(phase := Purging({}))])
    case PurgeScan(h, k) =>
      if h !in s.holders || !s.holders[h].phase.Purging? || k !in s.table || s.table[k] !in s.entries then s else
      var scanned := s.holders[h].phase.scanned + {k};
      s.(holders := s.holders[h := s.holders[h].(phase := Purging(scanned))],
         table := if s.entries[s.table[k]].count > 0 then s.table else s.table - {k})
    case PurgeEnd(h) => s.(holders := s.holders - {h})
  }

  /** The state after a run of steps, each enabled when it is taken. */
  ghost predicate Reaches<K, V>(s: State<K, V>, run: seq<Step<K, V>>, s': State<K, V>)
    decreases |run|
  {
    if run == [] then s == s' else Enabled(s, run[0]) && Reaches(Do(s, run[0]), run[1..], s')
  }

  // ---- the invariant ----------------------------------------------------------------------

  function LiveOf<K>(holders: map<nat, Holder<K>>, e: nat): set<nat> {
    set h | h in holders && holders[h].phase.Live? && holders[h].entry == e
  }

  /** Each counter is the number of live holders of its entry. */
  ghost predicate Counted<K, V>(s: State<K, V>) {
    forall e :: e in s.entries ==> s.entries[e].count == |LiveOf(s.holders, e)|
  }

  /** Tabled entries exist and are not shared between keys. */
  ghost predicate Tabled<K, V>(s: State<K, V>) {
    && (forall k :: k in s.table ==> s.table[k] in s.entries)
    && (forall k, l :: k in s.table && l in s.table && s.table[k] == s.table[l] ==> k == l)
  }

  /** A live holder's entry is the one its key maps to. */
  ghost predicate Held<K, V>(s: State<K, V>) {
    forall h :: h in s.holders && s.holders[h].phase.Live? ==>
      s.holders[h].key in s.table && s.table[s.holders[h].key] == s.holders[h].entry
  }

  /** A call under the lock still sees what it found. */
  ghost predicate Seen<K, V>(s: State<K, V>) {
    forall t :: t in s.calls ==>
      match s.calls[t]
      case Reading(k, found) => found == (if k in s.table then Some(s.table[k]) else None)
      case Inserting(k, e) => k in s.table && s.table[k] == e
  }

  /** One writer at most, and no reader beside it. */
  ghost predicate Exclusive<K, V>(s: State<K, V>) {
    && (forall t, u :: t in s.calls && u in s.calls && s.calls[t].Inserting? ==> t == u)
    && (forall h, t :: h in s.holders && t in s.calls ==> !s.holders[h].phase.Purging?)
    && (forall g, h ::
          (g in s.holders && h in s.holders && s.holders[g].phase.Purging? && s.holders[h].phase.Purging?) ==> g == h)
  }

  ghost predicate WillPurge<K, V>(s: State<K, V>, h: nat, k: K) {
    && h in s.holders
    && (s.holders[h].phase.Dropped? || (s.holders[h].phase.Purging? && k !in s.holders[h].phase.scanned))
  }

  ghost predicate WillHold<K, V>(s: State<K, V>, t: nat, k: K) {
    t in s.calls && s.calls[t].Inserting? && s.calls[t].key == k
  }

  /** Someone is still going to purge `k`, by a drop that has not scanned it, or to hold it, by an insert. */
  ghost predicate Awaited<K, V>(s: State<K, V>, k: K) {
    (exists h :: WillPurge(s, h, k)) || (exists t :: WillHold(s, t, k))
  }

  ghost predicate Collected<K, V>(s: State<K, V>) {
    forall k :: k in s.table && s.table[k] in s.entries && s.entries[s.table[k]].count == 0 ==> Awaited(s, k)
  }

  ghost predicate Inv<K, V>(s: State<K, V>) {
    Counted(s) && Tabled(s) && Held(s) && Seen(s) && Exclusive(s) && Collected(s)
  }

  // ---- preservation -----------------------------------------------------------------------

  lemma LiveOfJoin<K>(holders: map<nat, Holder<K>>, h: nat, x: Holder<K>, e: nat)
    requires h !in holders
    ensures |LiveOf(holders[h := x], e)| == |LiveOf(holders, e)| + if x.phase.Live? && x.entry == e then 1 else 0
  {
    var was, now := LiveOf(holders, e), LiveOf(holders[h := x], e);
    if x.phase.Live? && x.entry == e { assert now == was + {h}; } else { assert now == was; }
  }

  /** A change of phase takes a holder out of its entry's count exactly when it was live before. */
  lemma LiveOfLeave<K>(holders: map<nat, Holder<K>>, h: nat, p: Phase<K>, e: nat)
    requires h in holders && !p.Live?
    ensures |LiveOf(holders[h := holders[h].(phase := p)], e)| ==
            |LiveOf(holders, e)| - if h in LiveOf(holders, e) then 1 else 0
    ensures !holders[h].phase.Live? ==> LiveOf(holders - {h}, e) == LiveOf(holders, e)
  {
    var was, now := LiveOf(holders, e), LiveOf(holders[h := holders[h].(phase := p)], e);
    if h in was { assert was == now + {h}; } else { assert now == was; }
    if !holders[h].phase.Live? { assert LiveOf(holders - {h}, e) == was; }
  }

  lemma CountedKept<K, V>(s: State<K, V>, a: Step<K, V>)
    requires Inv(s) && Enabled(s, a)
    ensures Counted(Do(s, a))
  {
    var s' := Do(s, a);
    forall e | e in s'.entries ensures s'.entries[e].count == |LiveOf(s'.holders, e)| {
      match a {
        case GetBegin(_, _) =>
        case GetEnd(t, h) =>
          LiveOfJoin(s.holders, h, Holder(s.calls[t].key, (if s.calls[t].found.Some? then s.calls[t].found.value else 0), Live), e);
        case InsertBegin(_, k, v, spare) =>
          if e == spare && k !in s.table { NobodyHolds(s, spare); }
        case InsertEnd(t, h) =>
          LiveOfJoin(s.holders, h, Holder(s.calls[t].key, s.calls[t].entry, Live), e);
        case Decrement(h) =>
          LiveOfLeave(s.holders, h, Dropped, e);
        case PurgeBegin(h) =>
          LiveOfLeave(s.holders, h, Purging({}), e);
        case PurgeScan(h, k) =>
          LiveOfLeave(s.holders, h, Purging(s.holders[h].phase.scanned + {k}), e);
        case PurgeEnd(h) =>
          LiveOfLeave(s.holders, h, Dropped, e);
      }
    }
  }

  lemma NobodyHolds<K, V>(s: State<K, V>, e: nat)
    requires Inv(s) && e !in s.entries
    ensures LiveOf(s.holders, e) == {}
  {
  }

  /** A counted entry has a live holder, and a live holder's entry is counted. */
  lemma LiveCounts<K, V>(s: State<K, V>, h: nat)
    requires Inv(s) && h in s.holders && s.holders[h].phase.Live?
    ensures s.holders[h].entry in s.entries && s.entries[s.holders[h].entry].count > 0
  {
    assert h in LiveOf(s.holders, s.holders[h].entry);
  }

  lemma TabledKept<K, V>(s: State<K, V>, a: Step<K, V>)
    requires Inv(s) && Enabled(s, a)
    ensures Tabled(Do(s, a))
  {
  }

  lemma HeldKept<K, V>(s: State<K, V>, a: Step<K, V>)
    requires Inv(s) && Enabled(s, a)
    ensures Held(Do(s, a))
  {
    var s' := Do(s, a);
    forall h | h in s'.holders && s'.holders[h].phase.Live?
      ensures s'.holders[h].key in s'.table && s'.table[s'.holders[h].key] == s'.holders[h].entry
    {
      if h in s.holders && s.holders[h].phase.Live? { LiveCounts(s, h); }
    }
  }

  lemma SeenKept<K, V>(s: State<K, V>, a: Step<K, V>)
    requires Inv(s) && Enabled(s, a)
    ensures Seen(Do(s, a))
  {
    match a
    case GetBegin(_, _) =>
    case GetEnd(_, _) =>
    case InsertBegin(_, _, _, _) =>
    case InsertEnd(_, _) =>
    case Decrement(_) =>
    case PurgeBegin(_) =>
    case PurgeScan(_, _) =>
    case PurgeEnd(_) =>
  }

  lemma ExclusiveKept<K, V>(s: State<K, V>, a: Step<K, V>)
    requires Inv(s) && Enabled(s, a)
    ensures Exclusive(Do(s, a))
  {
    hide Counted, Collected, Held, Seen, Tabled;
    match a
    case GetBegin(_, _) =>
    case GetEnd(_, _) =>
    case InsertBegin(_, _, _, _) =>
    case InsertEnd(_, _) =>
    case Decrement(_) =>
    case PurgeBegin(_) =>
    case PurgeScan(_, _) =>
    case PurgeEnd(_) =>
  }

  lemma CollectedKept<K, V>(s: State<K, V>, a: Step<K, V>)
    requires Inv(s) && Enabled(s, a)
    ensures Collected(Do(s, a))
  {
    var s' := Do(s, a);
    forall k | k in s'.table && s'.table[k] in s'.entries && s'.entries[s'.table[k]].count == 0
      ensures Awaited(s', k)
    {
      AwaitedKept(s, a, k);
    }
  }

  lemma AwaitedKept<K, V>(s: State<K, V>, a: Step<K, V>, k: K)
    requires Inv(s) && Enabled(s, a)
    requires var s' := Do(s, a);
             k in s'.table && s'.table[k] in s'.entries && s'.entries[s'.table[k]].count == 0
    ensures Awaited(Do(s, a), k)
  {
    var s' := Do(s, a);
    if a.Decrement? && s.holders[a.h].key == k {
      assert WillPurge(s', a.h, k);
    } else if a.InsertBegin? && a.key == k {
      assert WillHold(s', a.t, k);
    } else {
      SameEntry(s, a, k);
      assert Awaited(s, k);
      if h :| WillPurge(s, h, k) {
        assert WillPurge(s', h, k) by { PurgerStays(s, a, h, k); }
      } else {
        var t :| WillHold(s, t, k);
        assert WillHold(s', t, k) by { InserterStays(s, a, t, k); }
      }
    }
  }

  /** Only a decrement of its own holder, or its own insert, makes a key's count zero. */
  lemma SameEntry<K, V>(s: State<K, V>, a: Step<K, V>, k: K)
    requires Inv(s) && Enabled(s, a)
    requires !(a.Decrement? && s.holders[a.h].key == k) && !(a.InsertBegin? && a.key == k)
    requires var s' := Do(s, a);
             k in s'.table && s'.table[k] in s'.entries && s'.entries[s'.table[k]].count == 0
    ensures k in s.table && s.table[k] in s.entries && s.entries[s.table[k]].count == 0
    ensures s.table[k] == Do(s, a).table[k]
  {
    match a
    case GetBegin(_, _) =>
    case GetEnd(_, _) =>
    case InsertBegin(_, _, _, _) =>
    case InsertEnd(_, _) =>
    case Decrement(h) => assert s.holders[h].entry != s.table[k];
    case PurgeBegin(_) =>
    case PurgeScan(_, _) =>
    case PurgeEnd(_) =>
  }

  lemma PurgerStays<K, V>(s: State<K, V>, a: Step<K, V>, h: nat, k: K)
    requires Inv(s) && Enabled(s, a) && WillPurge(s, h, k) && k in s.table
    requires k in Do(s, a).table && s.table[k] in s.entries && s.entries[s.table[k]].count == 0
    ensures WillPurge(Do(s, a), h, k)
  {
    match a
    case GetBegin(_, _) =>
    case GetEnd(_, _) =>
    case InsertBegin(_, _, _, _) =>
    case InsertEnd(_, _) =>
    case Decrement(_) =>
    case PurgeBegin(_) =>
    case PurgeScan(_, _) =>
    case PurgeEnd(_) =>
  }

  lemma InserterStays<K, V>(s: State<K, V>, a: Step<K, V>, t: nat, k: K)
    requires Inv(s) && Enabled(s, a) && WillHold(s, t, k)
    requires var s' := Do(s, a);
             k in s'.table && s'.table[k] in s'.entries && s'.entries[s'.table[k]].count == 0
    ensures WillHold(Do(s, a), t, k)
  {
    match a
    case GetBegin(_, _) =>
    case GetEnd(_, _) =>
    case InsertBegin(_, _, _, _) =>
    case InsertEnd(_, _) =>
    case Decrement(_) =>
    case PurgeBegin(_) =>
    case PurgeScan(_, _) =>
    case PurgeEnd(_) =>
  }

  lemma InvKept<K, V>(s: State<K, V>, a: Step<K, V>)
    requires Inv(s) && Enabled(s, a)
    ensures Inv(Do(s, a))
  {
    CountedKept(s, a);
    TabledKept(s, a);
    HeldKept(s, a);
    SeenKept(s, a);
    ExclusiveKept(s, a);
    CollectedKept(s, a);
  }

  // ---- what holds over whole runs ---------------------------------------------------------

  lemma {:induction false} RunKeepsInv<K, V>(s: State<K, V>, run: seq<Step<K, V>>, s': State<K, V>)
    requires Inv(s) && Reaches(s, run, s')
    ensures Inv(s')
    decreases |run|
  {
    if run != [] {
      InvKept(s, run[0]);
      RunKeepsInv(Do(s, run[0]), run[1..], s');
    }
  }

  /** The locks that a live holder stands for: one value per key, counted exactly. */
  ghost predicate Safe<K, V>(s: State<K, V>) {
    && (forall g, h ::
          (g in s.holders && h in s.holders && s.holders[g].phase.Live? && s.holders[h].phase.Live?) ==>
            (s.holders[g].key == s.holders[h].key <==> s.holders[g].entry == s.holders[h].entry))
    && (forall h :: h in s.holders && s.holders[h].phase.Live? ==>
          s.holders[h].key in s.table && s.table[s.holders[h].key] == s.holders[h].entry)
    && (forall e :: e in s.entries ==> s.entries[e].count == |LiveOf(s.holders, e)|)
  }

  /** In every interleaving from the empty table, live holders of a key share one tabled, exactly counted entry. */
  lemma RunIsSafe<K, V>(run: seq<Step<K, V>>, s: State<K, V>)
    requires Reaches(Init<K, V>(), run, s)
    ensures Safe(s)
  {
    RunKeepsInv(Init<K, V>(), run, s);
    assert Held(s) && Tabled(s);
  }

  /** No step removes the entry of a live holder, and the counter that its drop decrements is not zero. */
  lemma PurgeSparesHeld<K, V>(run: seq<Step<K, V>>, s: State<K, V>, a: Step<K, V>, h: nat)
    requires Reaches(Init<K, V>(), run, s) && Enabled(s, a)
    requires h in s.holders && s.holders[h].phase.Live?
    ensures s.holders[h].entry in s.entries && s.entries[s.holders[h].entry].count > 0
    ensures var k := s.holders[h].key;
            k in Do(s, a).table && Do(s, a).table[k] == s.holders[h].entry
  {
    RunKeepsInv(Init<K, V>(), run, s);
    LiveCounts(s, h);
    InvKept(s, a);
  }

  ghost predicate Quiet<K, V>(s: State<K, V>) {
    s.calls == map[] && forall h :: h in s.holders ==> s.holders[h].phase.Live?
  }

  lemma QuietAwaitsNothing<K, V>(s: State<K, V>, k: K)
    requires Quiet(s)
    ensures !Awaited(s, k)
  {
  }

  /** With no call and no drop in progress the table holds exactly the held keys. */
  lemma QuietTableIsHeld<K, V>(run: seq<Step<K, V>>, s: State<K, V>)
    requires Reaches(Init<K, V>(), run, s) && Quiet(s)
    ensures s.table.Keys == set h | h in s.holders :: s.holders[h].key
    ensures s.holders == map[] ==> s.table == map[]
  {
    RunKeepsInv(Init<K, V>(), run, s);
    forall k | k in s.table ensures exists h :: h in s.holders && s.holders[h].key == k {
      var e := s.table[k];
      QuietAwaitsNothing(s, k);
      assert s.entries[e].count > 0;
      assert LiveOf(s.holders, e) != {};
      var h :| h in LiveOf(s.holders, e);
    }
  }

  // ---- what the calls give ------------------------------------------------------------------

  /** One counter moved by `d`; no other counter and no value did. */
  ghost predicate Moved<V>(was: map<nat, Entry<V>>, now: map<nat, Entry<V>>, e: nat, d: int) {
    && now.Keys == was.Keys && e in was
    && forall x :: x in was ==> now[x].value == was[x].value && now[x].count == was[x].count + if x == e then d else 0
  }

  /** Nothing but holder `h` and call `t` may differ. */
  ghost predicate OthersKept<K, V>(s: State<K, V>, s': State<K, V>, t: nat, h: nat) {
    && s'.table == s.table
    && s'.calls == s.calls - {t}
    && s'.holders - {h} == s.holders - {h}
  }

  /**
   * In every reachable state a lookup that ends gives a live holder of its key, on the tabled entry whose
   * count it raises by one, if and only if the key is tabled; otherwise it gives nothing and moves nothing.
   */
  lemma GetGives<K, V>(run: seq<Step<K, V>>, s: State<K, V>, t: nat, h: nat)
    requires Reaches(Init<K, V>(), run, s) && Enabled(s, GetEnd(t, h))
    ensures var k, s' := s.calls[t].key, Do(s, GetEnd(t, h));
            && OthersKept(s, s', t, h)
            && (h in s'.holders <==> k in s.table)
            && (k in s.table ==> s'.holders[h] == Holder(k, s.table[k], Live) && Moved(s.entries, s'.entries, s.table[k], 1))
            && (k !in s.table ==> s'.entries == s.entries)
            && s.calls[t].found == (if k in s.table then Some(s.table[k]) else None)
  {
    hide Counted, Collected, Exclusive, Held, Reaches;
    RunKeepsInv(Init<K, V>(), run, s);
  }

  /** An insert that ends always gives a live holder of its key on the tabled entry. */
  lemma InsertGives<K, V>(run: seq<Step<K, V>>, s: State<K, V>, t: nat, h: nat)
    requires Reaches(Init<K, V>(), run, s) && Enabled(s, InsertEnd(t, h))
    ensures var k, s' := s.calls[t].key, Do(s, InsertEnd(t, h));
            && OthersKept(s, s', t, h) && k in s.table
            && h in s'.holders && s'.holders[h] == Holder(k, s.table[k], Live)
            && Moved(s.entries, s'.entries, s.table[k], 1) && s.calls[t].entry == s.table[k]
  {
    hide Counted, Collected, Exclusive, Held, Reaches;
    RunKeepsInv(Init<K, V>(), run, s);
  }

  /** A drop takes its holder out of use and out of its entry's count, and ends without it. */
  lemma DropGives<K, V>(run: seq<Step<K, V>>, s: State<K, V>, h: nat)
    requires Reaches(Init<K, V>(), run, s) && h in s.holders
    ensures Enabled(s, Decrement(h)) ==>
              var s' := Do(s, Decrement(h));
              && h in s'.holders && !s'.holders[h].phase.Live?
              && s'.holders - {h} == s.holders - {h} && s'.table == s.table && s'.calls == s.calls
              && Moved(s.entries, s'.entries, s.holders[h].entry, -1)
    ensures Enabled(s, PurgeEnd(h)) ==>
              var s' := Do(s, PurgeEnd(h));
              s'.holders == s.holders - {h} && s'.table == s.table && s'.calls == s.calls && s'.entries == s.entries
  {
    hide Counted, Collected, Exclusive, Seen, Reaches;
    RunKeepsInv(Init<K, V>(), run, s);
    if Enabled(s, Decrement(h)) { LiveCounts(s, h); }
  }

  predicate Ends<K, V>(a: Step<K, V>, t: nat) {
    match a
    case GetEnd(u, _) => u == t
    case InsertEnd(u, _) => u == t
    case _ => false
  }

  /** While a call runs, whatever the others do, it stays what it is, and no entry changes its value. */
  lemma {:induction false} CallStays<K, V>(s: State<K, V>, run: seq<Step<K, V>>, s': State<K, V>, t: nat)
    requires Reaches(s, run, s') && t in s.calls && forall i :: 0 <= i < |run| ==> !Ends(run[i], t)
    ensures t in s'.calls && s'.calls[t] == s.calls[t]
    ensures forall e :: e in s.entries ==> e in s'.entries && s'.entries[e].value == s.entries[e].value
    decreases |run|
  {
    if run != [] {
      StepStays(s, run[0], t);
      CallStays(Do(s, run[0]), run[1..], s', t);
    }
  }

  lemma StepStays<K, V>(s: State<K, V>, a: Step<K, V>, t: nat)
    requires Enabled(s, a) && t in s.calls && !Ends(a, t)
    ensures t in Do(s, a).calls && Do(s, a).calls[t] == s.calls[t]
    ensures forall e :: e in s.entries ==> e in Do(s, a).entries && Do(s, a).entries[e].value == s.entries[e].value
  {
    match a
    case GetBegin(_, _) =>
    case GetEnd(_, _) =>
    case InsertBegin(_, _, _, _) =>
    case InsertEnd(_, _) =>
    case Decrement(_) =>
    case PurgeBegin(_) =>
    case PurgeScan(_, _) =>
    case PurgeEnd(_) =>
  }

  /** `s'` comes from `s` by a step of call `t` and any steps of others. */
  ghost predicate Meanwhile<K, V>(s: State<K, V>, a: Step<K, V>, rest: seq<Step<K, V>>, s': State<K, V>, t: nat) {
    Enabled(s, a) && Reaches(Do(s, a), rest, s') && forall i :: 0 <= i < |rest| ==> !Ends(rest[i], t)
  }

  lemma {:induction false} Joined<K, V>(s: State<K, V>, run: seq<Step<K, V>>, m: State<K, V>, rest: seq<Step<K, V>>,
                                        s': State<K, V>)
    requires Reaches(s, run, m) && Reaches(m, rest, s')
    ensures Reaches(s, run + rest, s')
    decreases |run|
  {
    hide Do, Enabled;
    if run == [] {
      assert run + rest == rest;
    } else {
      Joined(Do(s, run[0]), run[1..], m, rest, s');
      assert (run + rest)[0] == run[0] && (run + rest)[1..] == run[1..] + rest;
    }
  }

  lemma Starts<K, V>(s: State<K, V>, a: Step<K, V>, rest: seq<Step<K, V>>, s': State<K, V>)
    requires Enabled(s, a) && Reaches(Do(s, a), rest, s')
    ensures Reaches(s, [a] + rest, s')
  {
    assert ([a] + rest)[0] == a && ([a] + rest)[1..] == rest;
  }

  lemma GetBegun<K, V>(s: State<K, V>, t: nat, k: K)
    requires Inv(s)
    ensures var m := Do(s, GetBegin(t, k));
            && t in m.calls && m.calls[t] == Reading(k, if k in s.table then Some(s.table[k]) else None)
            && m.entries == s.entries && (k in s.table ==> s.table[k] in s.entries)
  {
  }

  lemma InsertBegun<K, V>(s: State<K, V>, t: nat, k: K, v: V, spare: nat)
    requires Inv(s)
    ensures var m := Do(s, InsertBegin(t, k, v, spare));
            && t in m.calls && m.calls[t].Inserting? && m.calls[t].key == k && m.calls[t].entry in m.entries
            && (k in s.table ==> s.table[k] in s.entries)
            && m.entries[m.calls[t].entry].value == if k in s.table then s.entries[s.table[k]].value else v
  {
  }

  /**
   * A whole lookup, other calls and drops interleaved: it gives a holder of the key it asked for if and only if
   * that was tabled when it began, and then of the value that was there.
   */
  lemma WholeGet<K, V>(run: seq<Step<K, V>>, s: State<K, V>, t: nat, k: K, rest: seq<Step<K, V>>, m: State<K, V>, h: nat)
    requires Reaches(Init<K, V>(), run, s) && Meanwhile(s, GetBegin(t, k), rest, m, t) && Enabled(m, GetEnd(t, h))
    ensures var s' := Do(m, GetEnd(t, h));
            && (h in s'.holders <==> k in s.table)
            && (k in s.table ==>
                  && s'.holders[h] == Holder(k, s.table[k], Live) && s.table[k] in s.entries && s.table[k] in s'.entries
                  && s'.entries[s.table[k]].value == s.entries[s.table[k]].value)
  {
    hide Inv, Do, Enabled, Reaches;
    var a := GetBegin(t, k);
    RunKeepsInv(Init<K, V>(), run, s);
    GetBegun(s, t, k);
    Starts(s, a, rest, m);
    Joined(Init<K, V>(), run, s, [a] + rest, m);
    CallStays(Do(s, a), rest, m, t);
    GetGives(run + ([a] + rest), m, t, h);
  }

  /**
   * A whole insert, drops interleaved: it always gives a holder of the key, of the value that was there if the
   * key was tabled when it began and of the one it brought if not.
   */
  lemma WholeInsert<K, V>(run: seq<Step<K, V>>, s: State<K, V>, t: nat, k: K, v: V, spare: nat,
                          rest: seq<Step<K, V>>, m: State<K, V>, h: nat)
    requires Reaches(Init<K, V>(), run, s) && Meanwhile(s, InsertBegin(t, k, v, spare), rest, m, t)
    requires Enabled(m, InsertEnd(t, h))
    ensures var s' := Do(m, InsertEnd(t, h));
            && h in s'.holders && s'.holders[h].key == k && s'.holders[h].phase.Live?
            && (k in s.table ==> s.table[k] in s.entries) && s'.holders[h].entry in s'.entries
            && s'.entries[s'.holders[h].entry].value == if k in s.table then s.entries[s.table[k]].value else v
  {
    hide Inv, Do, Enabled, Reaches;
    var a := InsertBegin(t, k, v, spare);
    RunKeepsInv(Init<K, V>(), run, s);
    InsertBegun(s, t, k, v, spare);
    Starts(s, a, rest, m);
    Joined(Init<K, V>(), run, s, [a] + rest, m);
    CallStays(Do(s, a), rest, m, t);
    InsertGives(run + ([a] + rest), m, t, h);
  }

  /** One key scanned by the only purge in progress. */
  lemma ScanOne<K, V>(s: State<K, V>, h: nat, k: K) returns (m: State<K, V>)
    requires Inv(s) && h in s.holders && s.holders[h].phase.Purging?
    requires k in s.table && k !in s.holders[h].phase.scanned
    ensures Enabled(s, PurgeScan(h, k)) && m == Do(s, PurgeScan(h, k)) && Inv(m)
    ensures h in m.holders && m.holders[h].phase.Purging? && m.calls == s.calls && m.holders - {h} == s.holders - {h}
    ensures m.table.Keys - m.holders[h].phase.scanned <= s.table.Keys - s.holders[h].phase.scanned - {k}
  {
    hide Counted, Collected, Exclusive, Held, Seen;
    m := Do(s, PurgeScan(h, k));
    InvKept(s, PurgeScan(h, k));
  }

  lemma AllScanned<K, V>(s: State<K, V>, h: nat)
    requires h in s.holders && s.holders[h].phase.Purging? && s.table.Keys - s.holders[h].phase.scanned == {}
    ensures Enabled(s, PurgeEnd(h))
  {
    forall x | x in s.table.Keys ensures x in s.holders[h].phase.scanned {
      assert x !in s.table.Keys - s.holders[h].phase.scanned;
    }
  }

  /** A purge that nothing else interferes with scans every key. */
  lemma {:induction false} ScanAll<K, V>(s: State<K, V>, h: nat) returns (run: seq<Step<K, V>>, s': State<K, V>)
    requires Inv(s) && h in s.holders && s.holders[h].phase.Purging?
    ensures Reaches(s, run, s') && Enabled(s', PurgeEnd(h))
    ensures s'.calls == s.calls && s'.holders - {h} == s.holders - {h}
    decreases |s.table.Keys - s.holders[h].phase.scanned|
  {
    hide Inv, Enabled, Do;
    var left := s.table.Keys - s.holders[h].phase.scanned;
    if left == {} {
      AllScanned(s, h);
      run, s' := [], s;
    } else {
      var k :| k in left;
      var m := ScanOne(s, h, k);
      Shrinks(m.table.Keys - m.holders[h].phase.scanned, left, k);
      var rest;
      rest, s' := ScanAll(m, h);
      run := [PurgeScan(h, k)] + rest;
      assert run[0] == PurgeScan(h, k) && run[1..] == rest;
    }
  }

  lemma Shrinks<T>(small: set<T>, big: set<T>, x: T)
    requires small <= big - {x} && x in big
    ensures |small| < |big|
  {
    assert big == (big - {x}) + {x};
    SubsetCount(small, big - {x});
  }

  lemma SubsetCount<T>(small: set<T>, big: set<T>)
    requires small <= big
    ensures |small| <= |big|
  {
    assert big == small + (big - small);
  }

  lemma DropBegins<K, V>(s: State<K, V>, h: nat) returns (m: State<K, V>, n: State<K, V>)
    requires Inv(s) && Quiet(s) && h in s.holders
    ensures Enabled(s, Decrement(h)) && m == Do(s, Decrement(h))
    ensures Enabled(m, PurgeBegin(h)) && n == Do(m, PurgeBegin(h))
    ensures Inv(n) && h in n.holders && n.holders[h].phase.Purging? && n.calls == map[]
    ensures n.holders - {h} == s.holders - {h}
  {
    hide Counted, Collected, Held, Seen, Tabled;
    m := Do(s, Decrement(h));
    n := Do(m, PurgeBegin(h));
    InvKept(s, Decrement(h));
    InvKept(m, PurgeBegin(h));
  }

  lemma PurgeEnds<K, V>(s: State<K, V>, h: nat, s': State<K, V>)
    requires s' == Do(s, PurgeEnd(h))
    ensures s'.holders == s.holders - {h} && s'.calls == s.calls && Reaches(s', [], s')
  {
  }

  /** With nothing else in progress a drop can always run to its end, and leaves exactly the keys still held. */
  lemma DropAlone<K, V>(run: seq<Step<K, V>>, s: State<K, V>, h: nat) returns (drop: seq<Step<K, V>>, s': State<K, V>)
    requires Reaches(Init<K, V>(), run, s) && Quiet(s) && h in s.holders
    ensures Reaches(s, drop, s') && Quiet(s') && s'.holders == s.holders - {h}
    ensures s'.table.Keys == set g | g in s.holders && g != h :: s.holders[g].key
  {
    hide Inv, Do, Enabled, Reaches;
    RunKeepsInv(Init<K, V>(), run, s);
    var m, n := DropBegins(s, h);
    var scans, p := ScanAll(n, h);
    s' := Do(p, PurgeEnd(h));
    PurgeEnds(p, h, s');
    Starts(p, PurgeEnd(h), [], s');
    Joined(n, scans, p, [PurgeEnd(h)] + [], s');
    var purge := scans + ([PurgeEnd(h)] + []);
    Starts(m, PurgeBegin(h), purge, s');
    Starts(s, Decrement(h), [PurgeBegin(h)] + purge, s');
    drop := [Decrement(h)] + ([PurgeBegin(h)] + purge);
    Joined(Init<K, V>(), run, s, drop, s');
    QuietTableIsHeld(run + drop, s');
    assert s'.holders.Keys == s.holders.Keys - {h};
    assert forall g :: g in s'.holders ==> s'.holders[g] == s.holders[g];
  }

  // ---- coming to rest -----------------------------------------------------------------------

  ghost predicate LiveStay<K, V>(s: State<K, V>, s': State<K, V>) {
    forall h :: h in s.holders && s.holders[h].phase.Live? ==> h in s'.holders && s'.holders[h] == s.holders[h]
  }

  function NotLive<K, V>(s: State<K, V>): set<nat> {
    set h | h in s.holders && !s.holders[h].phase.Live?
  }

  lemma {:induction false} Unused(used: set<nat>) returns (h: nat)
    ensures h !in used
    ensures forall x :: x in used ==> x < h
  {
    if used == {} { return 0; }
    var x :| x in used;
    var g := Unused(used - {x});
    h := if g > x then g else x + 1;
    forall y | y in used ensures y < h {
      if y != x { assert y in used - {x}; }
    }
  }

  /** A call can always end. */
  lemma EndOne<K, V>(s: State<K, V>) returns (a: Step<K, V>, m: State<K, V>)
    requires Inv(s) && s.calls != map[]
    ensures Enabled(s, a) && m == Do(s, a) && Inv(m) && LiveStay(s, m) && m.calls.Keys < s.calls.Keys
  {
    hide Counted, Collected, Exclusive, Held, Seen, Tabled;
    var t :| t in s.calls;
    var h := Unused(s.holders.Keys);
    a := if s.calls[t].Reading? then GetEnd(t, h) else InsertEnd(t, h);
    m := Do(s, a);
    InvKept(s, a);
    assert t !in m.calls;
  }

  /** With no call in progress, a drop can go on to its end, if it has the write lock or nobody does. */
  lemma PurgeOne<K, V>(s: State<K, V>, h: nat) returns (run: seq<Step<K, V>>, s': State<K, V>)
    requires Inv(s) && s.calls == map[] && h in NotLive(s)
    requires s.holders[h].phase.Dropped? ==> !WriteLocked(s)
    ensures Reaches(s, run, s') && Inv(s') && s'.calls == map[] && s'.holders == s.holders - {h}
  {
    hide Inv, Do, Reaches;
    var m, p;
    if s.holders[h].phase.Purging? {
      run, p := ScanAll(s, h);
    } else {
      m := PurgeStarts(s, h);
      run, p := ScanAll(m, h);
      Starts(s, PurgeBegin(h), run, p);
      run := [PurgeBegin(h)] + run;
    }
    s' := Do(p, PurgeEnd(h));
    PurgeEnds(p, h, s');
    Starts(p, PurgeEnd(h), [], s');
    Joined(s, run, p, [PurgeEnd(h)] + [], s');
    run := run + ([PurgeEnd(h)] + []);
    RunKeepsInv(s, run, s');
  }

  lemma PurgeStarts<K, V>(s: State<K, V>, h: nat) returns (m: State<K, V>)
    requires Inv(s) && s.calls == map[] && h in s.holders && s.holders[h].phase.Dropped? && !WriteLocked(s)
    ensures Enabled(s, PurgeBegin(h)) && m == Do(s, PurgeBegin(h)) && Inv(m)
    ensures m.calls == map[] && h in m.holders && m.holders[h].phase.Purging? && m.holders - {h} == s.holders - {h}
  {
    hide Inv;
    m := Do(s, PurgeBegin(h));
    InvKept(s, PurgeBegin(h));
  }

  /**
   * The locks never jam: from every reachable state, with whatever calls and drops in progress, all of them can
   * run to their ends, with every live holder untouched.
   */
  lemma {:induction false} ComesToRest<K, V>(s: State<K, V>) returns (run: seq<Step<K, V>>, s': State<K, V>)
    requires Inv(s)
    ensures Reaches(s, run, s') && Quiet(s') && LiveStay(s, s')
    decreases |s.calls.Keys|, |NotLive(s)|
  {
    hide Inv, Do, Enabled;
    if s.calls != map[] {
      var a, m := EndOne(s);
      Shrunk(m.calls.Keys, s.calls.Keys);
      run, s' := ComesToRest(m);
      Starts(s, a, run, s');
      run := [a] + run;
    } else if NotLive(s) != {} {
      var h :| h in NotLive(s);
      if WriteLocked(s) { h :| h in s.holders && s.holders[h].phase.Purging?; }
      var drop, m := PurgeOne(s, h);
      assert NotLive(m) == NotLive(s) - {h};
      Shrunk(NotLive(m), NotLive(s));
      run, s' := ComesToRest(m);
      Joined(s, drop, m, run, s');
      run := drop + run;
    } else {
      run, s' := [], s;
      forall h | h in s.holders ensures s.holders[h].phase.Live? { assert h !in NotLive(s); }
    }
  }

  /**
   * Who waits for whom: a lookup for an insert or a purge in progress, an insert and a purge for any call or purge
   * in progress, and a decrement for nothing.
   */
  lemma Waits<K, V>(s: State<K, V>, t: nat, k: K, v: V, spare: nat, h: nat)
    requires t !in s.calls && spare !in s.entries
    ensures var purging := exists g :: g in s.holders && s.holders[g].phase.Purging?;
            && (Enabled(s, GetBegin(t, k)) <==> (forall u :: u in s.calls ==> s.calls[u].Reading?) && !purging)
            && (Enabled(s, InsertBegin(t, k, v, spare)) <==> s.calls == map[] && !purging)
            && (Enabled(s, PurgeBegin(h)) <==> h in s.holders && s.holders[h].phase.Dropped? && s.calls == map[] && !purging)
            && (Enabled(s, Decrement(h)) <==> h in s.holders && s.holders[h].phase.Live?)
  {
    if s.calls != map[] {
      var u :| u in s.calls;
      assert s.calls[u].Reading? || s.calls[u].Inserting?;
    }
  }

  lemma Shrunk<T>(small: set<T>, big: set<T>)
    requires small < big
    ensures |small| < |big|
  {
    var x :| x in big && x !in small;
    Shrinks(small, big, x);
  }
}
