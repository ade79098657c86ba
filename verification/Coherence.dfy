/**
  When the cache tells the truth: what every run of operations keeps.
 */
module Coherence {
  import opened Text
  import opened Rolls
  import opened StoreSpec
  import H = History

  /** Every cached entry that is not dirty equals what Redis holds. */
  ghost predicate Coherent(s: Store) {
    forall k | k in s.lru && k !in s.dirty :: Represents(s.lru[k], s.db, k)
  }

  /** What each reader's type assertion relies on. */
  ghost predicate WellTyped(s: Store) {
    && (forall k | k in s.lru :: k.family.Saved? <==> s.lru[k].Rows?)
    && (forall k | k in s.db ::
          match k.family
          case Recent => s.db[k].Ranked?
          case Saved => s.db[k].Table?
          case Preferences => s.db[k].Names?)
  }

  /** The keys an operation may leave dirty. */
  function Dirties(op: Op): set<Key> {
    match op
    case Unsave(u, _) => {Key(Saved, u)}
    case ClearExpressions(u) => {Key(Saved, u)}
    case ClearRecent(u) => {Key(Recent, u)}
    case SetPreference(u, _) => {Key(Preferences, u)}
    case UnsetPreference(u, _) => {Key(Preferences, u)}
    case DisableRecent(u) => {Key(Preferences, u), Key(Recent, u)}
    case Expire(k) => {k}
    case DoImport(u, rows) => if rows == [] then {Key(Saved, u)} else {}
    case _ => {}
  }

  lemma RepresentsFrame(c: Cached, db: Db, db': Db, k: Key)
    requires Represents(c, db, k)
    requires k in db <==> k in db'
    requires k in db ==> db[k] == db'[k]
    ensures Represents(c, db', k)
  {
  }

  lemma ReadThroughCoherent(s: Store, k: Key, c: Cached, gone: set<Key>)
    requires Coherent(s) && Represents(c, s.db, k)
    ensures Coherent(ReadThrough(s, k, c, gone))
    ensures WellTyped(s) ==> WellTyped(ReadThrough(s, k, c, gone))
  {
  }

  ghost predicate Typed(k: Key, v: Value) {
    match k.family
    case Recent => v.Ranked?
    case Saved => v.Table?
    case Preferences => v.Names?
  }

  lemma RefreshCoherent(s: Store, k: Key, v: Value)
    requires Coherent(s)
    ensures Coherent(Refresh(s, k, v))
    ensures WellTyped(s) && Typed(k, v) ==> WellTyped(Refresh(s, k, v))
  {
    var t := Refresh(s, k, v);
    forall q | q in t.lru && q !in t.dirty
      ensures Represents(t.lru[q], t.db, q)
    {
      RepresentsFrame(s.lru[q], s.db, t.db, q);
    }
  }

  lemma OverwriteCoherent(s: Store, k: Key, v: Value)
    requires Coherent(s)
    ensures Coherent(Overwrite(s, k, v))
    ensures WellTyped(s) && Typed(k, v) ==> WellTyped(Overwrite(s, k, v))
  {
    var t := Overwrite(s, k, v);
    forall q | q in t.lru && q !in t.dirty
      ensures Represents(t.lru[q], t.db, q)
    {
      RepresentsFrame(s.lru[q], s.db, t.db, q);
    }
  }

  lemma DeleteCoherent(s: Store, k: Key)
    requires Coherent(s)
    ensures Coherent(Delete(s, k))
    ensures WellTyped(s) ==> WellTyped(Delete(s, k))
  {
    var t := Delete(s, k);
    forall q | q in t.lru && q !in t.dirty
      ensures Represents(t.lru[q], t.db, q)
    {
      RepresentsFrame(s.lru[q], s.db, t.db, q);
    }
  }

  lemma {:induction false} SaveAllCoherent(s: Store, u: string, rows: seq<Roll>)
    requires Coherent(s)
    ensures Coherent(SaveAll(s, u, rows))
    ensures WellTyped(s) ==> WellTyped(SaveAll(s, u, rows))
  {
    if rows != [] {
      var n := |rows| - 1;
      SaveAllCoherent(s, u, rows[..n]);
      SetNamedCoherent(SaveAll(s, u, rows[..n]), u, Cleaned(rows[n]));
    }
  }

  lemma {:induction false} SaveAllDirty(s: Store, u: string, rows: seq<Roll>)
    ensures SaveAll(s, u, rows).dirty <= s.dirty
    ensures rows != [] && AllOk(rows) ==> SaveAll(s, u, rows).dirty == s.dirty - {Key(Saved, u)}
  {
    if rows != [] {
      SaveAllDirty(s, u, rows[..|rows| - 1]);
    }
  }

  /** One operation keeps the invariants and dirties no more than it says. */
  lemma StepCoherent(cfg: Config, s: Store, op: Op)
    requires Coherent(s) && WellTyped(s) && Allowed(s, op)
    ensures Coherent(Apply(cfg, s, op)) && WellTyped(Apply(cfg, s, op))
  {
    match op
    case Read(k, c, gone) => ReadThroughCoherent(s, k, c, gone);
    case DoCacheRoll(u, r, now, c, gone) =>
      if OkForAutocomplete(r) {
        CacheRollCoherent(cfg, s, u, r, now, c, gone);
      }
    case DoSlashSave(u, r) => SavedCoherent(s, u, r);
    case DoModalSave(u, r) => SavedCoherent(s, u, r);
    case DoImport(u, rows) =>
      DeleteCoherent(s, Key(Saved, u));
      SaveAllCoherent(Delete(s, Key(Saved, u)), u, rows);
    case Unsave(u, id) => OverwriteCoherent(s, Key(Saved, u), Table(RowsOf(s.db, Key(Saved, u)) - {id}));
    case ClearExpressions(u) => DeleteCoherent(s, Key(Saved, u));
    case ClearRecent(u) => DeleteCoherent(s, Key(Recent, u));
    case SetPreference(u, name) =>
      OverwriteCoherent(s, Key(Preferences, u), Names(NamesOf(s.db, Key(Preferences, u)) + {name}));
    case UnsetPreference(u, name) =>
      OverwriteCoherent(s, Key(Preferences, u), Names(NamesOf(s.db, Key(Preferences, u)) - {name}));
    case DisableRecent(u) =>
      var v := Names(NamesOf(s.db, Key(Preferences, u)) + {NO_RECENT});
      OverwriteCoherent(s, Key(Preferences, u), v);
      DeleteCoherent(Overwrite(s, Key(Preferences, u), v), Key(Recent, u));
    case Evict(k) =>
    case Expire(k) => DeleteCoherent(s, k);
  }

  lemma CacheRollCoherent(cfg: Config, s: Store, u: string, r: Roll, now: int, c: Cached, gone: set<Key>)
    requires Coherent(s) && Represents(c, s.db, Key(Preferences, u))
    ensures Coherent(CacheRoll(cfg, s, u, r, now, c, gone))
    ensures WellTyped(s) ==> WellTyped(CacheRoll(cfg, s, u, r, now, c, gone))
  {
    var prefs, recent := Key(Preferences, u), Key(Recent, u);
    ReadThroughCoherent(s, prefs, c, gone);
    RefreshCoherent(ReadThrough(s, prefs, c, gone), recent,
      Ranked(H.Recorded(ZOf(s.db, recent), H.Event(Serialize(r), now), cfg.maxHistory, cfg.recentTtl)));
  }

  lemma SavedCoherent(s: Store, u: string, r: Roll)
    requires Coherent(s) && WellTyped(s)
    ensures Coherent(ModalSave(s, u, r)) && WellTyped(ModalSave(s, u, r))
  {
    SetNamedCoherent(s, u, Cleaned(r));
  }

  lemma SetNamedCoherent(s: Store, u: string, r: Roll)
    requires Coherent(s)
    ensures Coherent(SetNamedRoll(s, u, r))
    ensures WellTyped(s) ==> WellTyped(SetNamedRoll(s, u, r))
  {
    RefreshCoherent(s, Key(Saved, u), Table(RowsOf(s.db, Key(Saved, u))[ID(r) := r]));
  }

  /** Only unsave, clear, preference writes, an empty import and expiry can make
      a key dirty; every other operation leaves the dirty set as it is or smaller. */
  lemma StepDirties(cfg: Config, s: Store, op: Op)
    ensures Apply(cfg, s, op).dirty <= s.dirty + Dirties(op)
  {
    if op.DoImport? {
      SaveAllDirty(Delete(s, Key(Saved, op.u)), op.u, op.rows);
    }
  }

  /** Over every run from the empty store: clean entries are current, and the
      readers' type assertions cannot fail. */
  lemma {:induction false} RunCoherent(cfg: Config, ops: seq<Op>)
    requires Legal(cfg, ops)
    ensures Coherent(Run(cfg, ops)) && WellTyped(Run(cfg, ops))
  {
    if ops != [] {
      var n := |ops| - 1;
      RunCoherent(cfg, ops[..n]);
      StepCoherent(cfg, Run(cfg, ops[..n]), ops[n]);
    }
  }

  /** A key that no operation of the run may dirty is clean at the end. */
  lemma {:induction false} CleanKeys(cfg: Config, ops: seq<Op>, k: Key)
    requires forall i | 0 <= i < |ops| :: k !in Dirties(ops[i])
    ensures k !in Run(cfg, ops).dirty
  {
    if ops != [] {
      var n := |ops| - 1;
      CleanKeys(cfg, ops[..n], k);
      StepDirties(cfg, Run(cfg, ops[..n]), ops[n]);
    }
  }

  // ---------------------------------------------------------------- when an entry goes stale

  /** The reader of `k` fetches the same from either database. */
  ghost predicate LooksSame(db: Db, db': Db, k: Key) {
    match k.family
    case Recent => H.ZRevRangeAll(ZOf(db, k)) == H.ZRevRangeAll(ZOf(db', k))
    case Saved => RowsOf(db, k) == RowsOf(db', k)
    case Preferences => NamesOf(db, k) == NamesOf(db', k)
  }

  /** A value that is current in one database is current in another exactly when its
      reader cannot tell them apart. */
  lemma CurrentInBoth(c: Cached, db: Db, db': Db, k: Key)
    requires Represents(c, db, k)
    ensures Represents(c, db', k) <==> LooksSame(db, db', k)
  {
    if k.family.Preferences? && Represents(c, db', k) {
      assert forall x :: x in NamesOf(db, k) <==> x in NamesOf(db', k);
    }
  }

  /** A clean cached entry stays current through a write to Redis alone exactly
      when the write changes nothing the reader can see. */
  lemma OverwriteStaleExactly(s: Store, k: Key, v: Value)
    requires Coherent(s) && WellTyped(s) && Typed(k, v) && k in s.lru && k !in s.dirty
    ensures var t := Overwrite(s, k, v);
            Represents(t.lru[k], t.db, k) <==>
            match k.family
            case Recent => H.ZRevRangeAll(v.z) == H.ZRevRangeAll(ZOf(s.db, k))
            case Saved => v.rows == RowsOf(s.db, k)
            case Preferences => v.names == NamesOf(s.db, k)
  {
    CurrentInBoth(s.lru[k], s.db, Overwrite(s, k, v).db, k);
  }

  /** Nothing is stored under `k`. */
  predicate Empty(db: Db, k: Key) {
    match k.family
    case Recent => ZOf(db, k) == []
    case Saved => RowsOf(db, k) == map[]
    case Preferences => NamesOf(db, k) == {}
  }

  /** Through a deletion or an expiry it stays current exactly when there was nothing
      to delete. */
  lemma DeleteStaleExactly(s: Store, k: Key)
    requires Coherent(s) && k in s.lru && k !in s.dirty
    ensures var t := Delete(s, k); Represents(t.lru[k], t.db, k) <==> Empty(s.db, k)
  {
    CurrentInBoth(s.lru[k], s.db, Delete(s, k).db, k);
    if k.family.Recent? {
      assert |H.ZRevRangeAll(ZOf(s.db, k))| == |ZOf(s.db, k)|;
    }
  }

  /** An operation hides nothing from the readers: what it changes in Redis alone is
      not cached, or is there already. */
  ghost predicate Harmless(s: Store, op: Op) {
    match op
    case Unsave(u, id) => Key(Saved, u) in s.lru ==> id !in RowsOf(s.db, Key(Saved, u))
    case ClearExpressions(u) => Key(Saved, u) in s.lru ==> Empty(s.db, Key(Saved, u))
    case ClearRecent(u) => Key(Recent, u) in s.lru ==> Empty(s.db, Key(Recent, u))
    case SetPreference(u, name) => Key(Preferences, u) in s.lru ==> name in NamesOf(s.db, Key(Preferences, u))
    case UnsetPreference(u, name) => Key(Preferences, u) in s.lru ==> name !in NamesOf(s.db, Key(Preferences, u))
    case DisableRecent(u) =>
      && (Key(Preferences, u) in s.lru ==> NO_RECENT in NamesOf(s.db, Key(Preferences, u)))
      && (Key(Recent, u) in s.lru ==> Empty(s.db, Key(Recent, u)))
    case Expire(k) => k in s.lru ==> Empty(s.db, k)
    case DoImport(u, rows) => rows == [] && Key(Saved, u) in s.lru ==> Empty(s.db, Key(Saved, u))
    case _ => true
  }

  ghost predicate AllCurrent(s: Store) {
    forall k | k in s.lru :: Represents(s.lru[k], s.db, k)
  }

  /** An operation that touches two keys at most. */
  lemma TwoKeysStale(s: Store, t: Store, a: Key, b: Key)
    requires AllCurrent(s) && t.lru == s.lru
    requires s.db - {a, b} == t.db - {a, b}
    ensures AllCurrent(t) <==>
            (a in s.lru ==> LooksSame(s.db, t.db, a)) && (b in s.lru ==> LooksSame(s.db, t.db, b))
  {
    if a in s.lru {
      CurrentInBoth(s.lru[a], s.db, t.db, a);
    }
    if b in s.lru {
      CurrentInBoth(s.lru[b], s.db, t.db, b);
    }
    forall q | q in s.lru && q !in {a, b}
      ensures Represents(s.lru[q], t.db, q)
    {
      assert q in s.db <==> q in s.db - {a, b};
      assert q in t.db <==> q in t.db - {a, b};
      assert q in s.db ==> s.db[q] == (s.db - {a, b})[q] == (t.db - {a, b})[q] == t.db[q];
      RepresentsFrame(s.lru[q], s.db, t.db, q);
    }
  }

  /** An operation that touches one key only. */
  lemma OneKeyStale(s: Store, t: Store, k: Key)
    requires AllCurrent(s) && t.lru == s.lru
    requires s.db - {k} == t.db - {k}
    ensures AllCurrent(t) <==> (k in s.lru ==> LooksSame(s.db, t.db, k))
  {
    assert {k, k} == {k};
    TwoKeysStale(s, t, k, k);
  }

  lemma DisableStale(s: Store, u: string)
    requires AllCurrent(s)
    ensures AllCurrent(OptOut(s, u)) <==> Harmless(s, DisableRecent(u))
  {
    var prefs, recent := Key(Preferences, u), Key(Recent, u);
    var t := OptOut(s, u);
    assert s.db - {prefs, recent} == t.db - {prefs, recent};
    TwoKeysStale(s, t, prefs, recent);
    assert NamesOf(t.db, prefs) == NamesOf(s.db, prefs) + {NO_RECENT};
    assert |H.ZRevRangeAll(ZOf(s.db, recent))| == |ZOf(s.db, recent)|;
  }

  lemma RemovedNothing(rows: map<string, Roll>, id: string)
    ensures rows - {id} == rows <==> id !in rows
  {
  }

  /** A cache that is all current stays so through any operation exactly when the
      operation is harmless. */
  lemma StaleAfterExactly(cfg: Config, s: Store, op: Op)
    requires AllCurrent(s) && WellTyped(s) && Allowed(s, op)
    ensures AllCurrent(Apply(cfg, s, op)) <==> Harmless(s, op)
  {
    var t := Apply(cfg, s, op);
    match op
    case Unsave(u, id) =>
      OneKeyStale(s, t, Key(Saved, u));
      RemovedNothing(RowsOf(s.db, Key(Saved, u)), id);
    case ClearExpressions(u) => DeleteStale(s, Key(Saved, u));
    case ClearRecent(u) => DeleteStale(s, Key(Recent, u));
    case SetPreference(u, name) => OneKeyStale(s, t, Key(Preferences, u));
    case UnsetPreference(u, name) => OneKeyStale(s, t, Key(Preferences, u));
    case DisableRecent(u) => DisableStale(s, u);
    case Expire(k) => DeleteStale(s, k);
    case DoImport(u, rows) =>
      if rows == [] {
        DeleteStale(s, Key(Saved, u));
      } else {
        RefreshesStayCurrent(cfg, s, op);
      }
    case _ => RefreshesStayCurrent(cfg, s, op);
  }

  lemma DeleteStale(s: Store, k: Key)
    requires AllCurrent(s)
    ensures AllCurrent(Delete(s, k)) <==> (k in s.lru ==> Empty(s.db, k))
  {
    OneKeyStale(s, Delete(s, k), k);
    if k.family.Recent? {
      assert |H.ZRevRangeAll(ZOf(s.db, k))| == |ZOf(s.db, k)|;
    }
  }

  /** Operations that dirty no key keep everything current. */
  lemma RefreshesStayCurrent(cfg: Config, s: Store, op: Op)
    requires AllCurrent(s) && WellTyped(s) && Allowed(s, op) && Dirties(op) == {}
    ensures AllCurrent(Apply(cfg, s, op))
  {
    var clean := s.(dirty := {});
    CleanedOf(cfg, s, op);
    StepCoherent(cfg, clean, op);
    StepDirties(cfg, clean, op);
  }

  /** Two stores that differ at most in their history of dirty keys. */
  ghost predicate Alike(s: Store, t: Store) {
    s.db == t.db && s.lru == t.lru
  }

  lemma CacheRollAlike(cfg: Config, s: Store, t: Store, op: Op)
    requires Alike(s, t) && op.DoCacheRoll?
    ensures Alike(Apply(cfg, s, op), Apply(cfg, t, op))
  {
  }

  lemma SetNamedAlike(s: Store, t: Store, u: string, r: Roll)
    requires Alike(s, t)
    ensures Alike(SetNamedRoll(s, u, r), SetNamedRoll(t, u, r))
  {
  }

  /** Operations do not look at the dirty set. */
  lemma CleanedOf(cfg: Config, s: Store, op: Op)
    requires Dirties(op) == {}
    ensures Alike(Apply(cfg, s, op), Apply(cfg, s.(dirty := {}), op))
    ensures Allowed(s, op) ==> Allowed(s.(dirty := {}), op)
  {
    var clean := s.(dirty := {});
    match op
    case DoImport(u, rows) => SaveAllAlike(Delete(s, Key(Saved, u)), Delete(clean, Key(Saved, u)), u, rows);
    case DoCacheRoll(_, _, _, _, _) => CacheRollAlike(cfg, s, clean, op);
    case DoSlashSave(u, r) => SetNamedAlike(s, clean, u, Cleaned(r));
    case DoModalSave(u, r) => SetNamedAlike(s, clean, u, Cleaned(r));
    case _ =>
  }

  lemma {:induction false} SaveAllAlike(s: Store, t: Store, u: string, rows: seq<Roll>)
    requires Alike(s, t)
    ensures Alike(SaveAll(s, u, rows), SaveAll(t, u, rows))
  {
    if rows != [] {
      var n := |rows| - 1;
      SaveAllAlike(s, t, u, rows[..n]);
      SetNamedAlike(SaveAll(s, u, rows[..n]), SaveAll(t, u, rows[..n]), u, Cleaned(rows[n]));
    }
  }

  /** The cache is all current after every operation of a run. */
  ghost predicate AlwaysCurrent(cfg: Config, ops: seq<Op>) {
    ops == [] || (AlwaysCurrent(cfg, ops[..|ops| - 1]) && AllCurrent(Run(cfg, ops)))
  }

  ghost predicate AlwaysHarmless(cfg: Config, ops: seq<Op>) {
    ops == [] || (AlwaysHarmless(cfg, ops[..|ops| - 1]) && Harmless(Run(cfg, ops[..|ops| - 1]), ops[|ops| - 1]))
  }

  /** Reads are never stale in a run exactly when each of its operations is harmless
      where it happens. */
  lemma {:induction false} RunCurrentExactly(cfg: Config, ops: seq<Op>)
    requires Legal(cfg, ops)
    ensures AlwaysCurrent(cfg, ops) ==> AllCurrent(Run(cfg, ops))
    ensures AlwaysCurrent(cfg, ops) <==> AlwaysHarmless(cfg, ops)
  {
    if ops != [] {
      var n := |ops| - 1;
      var s := Run(cfg, ops[..n]);
      RunCurrentExactly(cfg, ops[..n]);
      RunCoherent(cfg, ops[..n]);
      if AllCurrent(s) {
        StaleAfterExactly(cfg, s, ops[n]);
      }
    }
  }

  // ---------------------------------------------------------------- a stale run

  lemma RunExtends(cfg: Config, ops: seq<Op>, op: Op)
    ensures Run(cfg, ops + [op]) == Apply(cfg, Run(cfg, ops), op)
    ensures Legal(cfg, ops) && Allowed(Run(cfg, ops), op) ==> Legal(cfg, ops + [op])
  {
    assert (ops + [op])[..|ops|] == ops;
  }

  lemma FirstSave(u: string, r: Roll)
    requires RowOk(r)
    ensures ModalSave(INITIAL, u, r) ==
            Store(map[Key(Saved, u) := Table(map[ID(Cleaned(r)) := Cleaned(r)])], map[], {})
  {
    var k, id := Key(Saved, u), ID(Cleaned(r));
    var rows := RowsOf(INITIAL.db, k)[id := Cleaned(r)];
    assert rows == map[id := Cleaned(r)] && id in rows;
    assert Put(INITIAL.db, k, Table(rows)) == map[k := Table(rows)];
    assert INITIAL.lru - {k} == map[] && INITIAL.dirty - {k} == {};
  }

  /** Listing and unsaving the only row leaves it in the cache and nowhere else. */
  lemma ListThenUnsave(s: Store, k: Key, id: string, rows: map<string, Roll>)
    requires s == Store(map[k := Table(rows)], map[], {}) && rows.Keys == {id}
    ensures var t := ReadThrough(s, k, Rows(rows), {});
            var w := Overwrite(t, k, Table(RowsOf(t.db, k) - {id}));
            RowsOf(t.db, k) == rows && RowsOf(w.db, k) == map[] && k in w.lru && w.lru[k] == Rows(rows)
  {
    assert rows - {id} == map[];
  }

  /** Save, list, unsave, list: whatever roll it is, the second list still has it. */
  lemma UnsavedRollIsListed(cfg: Config, u: string, r: Roll, c: Cached)
    requires RowOk(r)
    ensures var k, id := Key(Saved, u), ID(Cleaned(r));
            var listed := Rows(map[id := Cleaned(r)]);
            var ops := [DoModalSave(u, r)] + [Read(k, listed, {})] + [Unsave(u, id)];
            && Legal(cfg, ops)
            && RowsOf(Run(cfg, ops).db, k) == map[]
            && Seen(Run(cfg, ops), k, c) == listed
  {
    var k, id := Key(Saved, u), ID(Cleaned(r));
    var rows := map[id := Cleaned(r)];
    var save, read, unsave := DoModalSave(u, r), Read(k, Rows(rows), {}), Unsave(u, id);
    assert [] + [save] == [save];
    RunExtends(cfg, [], save);
    FirstSave(u, r);
    RunExtends(cfg, [save], read);
    RunExtends(cfg, [save] + [read], unsave);
    ListThenUnsave(Run(cfg, [save]), k, id, rows);
  }
}
