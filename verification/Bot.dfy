/**
  The bot's store operations as they run: Redis and a bounded cache, updated in
  place.  Each method is proved to be one step of the state machine.
 */
module Bot {
  import opened Text
  import opened Rolls
  import opened StoreSpec
  import opened Coherence
  import opened SavedExpressions
  import H = History

  datatype ImportResult = TooMany | Invalid(row: nat, fault: Fault) | TooLong(row: nat) | Imports(total: nat)

  /** The complaint about a row that fails a check, counted from 1. */
  function Complaint(number: nat, r: Roll): ImportResult {
    match Validate(r)
    case Some(fault) => Invalid(number, fault)
    case None => TooLong(number)
  }

  /** Row `n` is the first bad one. */
  predicate FirstBad(rows: seq<Roll>, n: int) {
    0 <= n < |rows| && AllOk(rows[..n]) && !RowOk(rows[n])
  }

  /** The complaint is about the first bad row. */
  ghost predicate Reports(result: ImportResult, rows: seq<Roll>) {
    && (result.Invalid? || result.TooLong?)
    && FirstBad(rows, result.row - 1)
    && result == Complaint(result.row, Cleaned(rows[result.row - 1]))
  }

  /** What an import tells the user. */
  ghost predicate Answers(cfg: Config, result: ImportResult, rows: seq<Roll>) {
    match result
    case TooMany => |rows| > cfg.maxExpressions
    case Imports(total) => ImportOk(cfg, rows) && total == |Imported(rows)|
    case _ => |rows| <= cfg.maxExpressions && Reports(result, rows)
  }

  /** The answer is a success exactly when every row passes. */
  lemma SuccessExactly(cfg: Config, a: ImportResult, rows: seq<Roll>)
    requires Answers(cfg, a, rows)
    ensures a.Imports? <==> ImportOk(cfg, rows)
  {
    if a.Invalid? || a.TooLong? {
      FirstBadIsUnique(rows, a.row - 1, 0);
    }
  }

  lemma ReportsAgree(a: ImportResult, b: ImportResult, rows: seq<Roll>)
    requires Reports(a, rows) && Reports(b, rows)
    ensures a == b
  {
    var m, n := a.row - 1, b.row - 1;
    assert m == n by {
      FirstBadIsUnique(rows, m, n);
      FirstBadIsUnique(rows, n, m);
    }
  }

  /** Only one answer is right for given rows. */
  lemma AnswerIsUnique(cfg: Config, a: ImportResult, b: ImportResult, rows: seq<Roll>)
    requires Answers(cfg, a, rows) && Answers(cfg, b, rows)
    ensures a == b
  {
    SuccessExactly(cfg, a, rows);
    SuccessExactly(cfg, b, rows);
    if (a.Invalid? || a.TooLong?) && (b.Invalid? || b.TooLong?) {
      ReportsAgree(a, b, rows);
    }
  }

  lemma FirstBadIsUnique(rows: seq<Roll>, m: int, n: int)
    requires FirstBad(rows, m)
    ensures !AllOk(rows)
    ensures FirstBad(rows, n) ==> m <= n
  {
    if AllOk(rows) {
      OkRow(rows, m);
    }
    if FirstBad(rows, n) && n < m {
      OkRow(rows[..m], n);
    }
  }

  /** How many rows were cleaned before the import ended. */
  function RowsRead(result: ImportResult, count: nat): nat {
    match result
    case TooMany => 0
    case Invalid(row, _) => row
    case TooLong(row) => row
    case Imports(_) => count
  }

  /** Redis lists the members of a set in some order. */
  method Listing(names: set<string>) returns (items: seq<string>)
    ensures forall i, j | 0 <= i < j < |items| :: items[i] != items[j]
    ensures forall x :: x in items <==> x in names
  {
    items := [];
    var rest := names;
    while rest != {}
      invariant rest <= names
      invariant forall i, j | 0 <= i < j < |items| :: items[i] != items[j]
      invariant forall x :: x in items <==> x in names && x !in rest
      decreases rest
    {
      var x :| x in rest;
      items := items + [x];
      rest := rest - {x};
    }
  }

  class Golem {
    const cfg: Config
    const capacity: nat
    var db: Db
    var lru: map<Key, Cached>
    ghost var dirty: set<Key>

    ghost predicate Valid()
      reads this
    {
      && 0 < capacity && |lru| <= capacity
      && Coherent(Snap()) && WellTyped(Snap())
    }

    ghost function Snap(): Store
      reads this
    {
      Store(db, lru, dirty)
    }

    constructor (cfg: Config, capacity: nat)
      requires capacity > 0
      ensures Valid() && Snap() == INITIAL && this.cfg == cfg && this.capacity == capacity
    {
      this.cfg, this.capacity := cfg, capacity;
      db, lru, dirty := map[], map[], {};
    }

    // -------------------------------------------------------------- the cache

    /** Adds an entry; a full cache pushes another one out. */
    method Add(k: Key, c: Cached) returns (ghost gone: set<Key>)
      requires Valid() && k !in lru && Represents(c, db, k)
      modifies this
      ensures Valid() && Snap() == ReadThrough(old(Snap()), k, c, gone)
    {
      gone := Keep(k, c);
      AddIsReadThrough(old(Snap()), Snap(), k, c, gone);
      ReadThroughCoherent(old(Snap()), k, c, gone);
    }

    method Keep(k: Key, c: Cached) returns (ghost gone: set<Key>)
      requires 0 < capacity && |lru| <= capacity
      modifies this`lru, this`dirty
      ensures k !in gone && lru == old(lru)[k := c] - gone && dirty == old(dirty) - {k}
      ensures |lru| <= capacity
    {
      gone := {};
      UpdateSize(lru, k, c);
      lru := lru[k := c];
      if |lru| > capacity {
        var victim := Victim(k);
        RemoveSize(lru, victim);
        lru := lru - {victim};
        gone := {victim};
      } else {
        assert lru - {} == lru;
      }
      dirty := dirty - {k};
    }

    /** The cache's choice of what to push out; never the entry just added. */
    method Victim(k: Key) returns (victim: Key)
      requires |lru| >= 2
      ensures victim in lru && victim != k
    {
      RemoveSize(lru, k);
      assert lru - {k} != map[];
      victim :| victim in lru - {k};
    }

    /** Drops a key from the cache, once Redis was written. */
    method Remove(k: Key)
      modifies this`lru, this`dirty
      ensures lru == old(lru) - {k} && dirty == old(dirty) - {k}
    {
      lru := lru - {k};
      dirty := dirty - {k};
    }

    method SMembers(k: Key) returns (items: seq<string>, ghost c: Cached, ghost gone: set<Key>)
      requires Valid() && k.family.Preferences?
      modifies this
      ensures Valid() && Represents(c, old(db), k)
      ensures Snap() == ReadThrough(old(Snap()), k, c, gone) && Strings(items) == Seen(old(Snap()), k, c)
    {
      items := Listing(NamesOf(db, k));
      c, gone := Strings(items), {};
      if k in lru {
        items := lru[k].items;
        return;
      }
      gone := Add(k, Strings(items));
    }

    method SIsMember(k: Key, v: string) returns (found: bool, ghost c: Cached, ghost gone: set<Key>)
      requires Valid() && k.family.Preferences?
      modifies this
      ensures Valid() && Represents(c, old(db), k)
      ensures Snap() == ReadThrough(old(Snap()), k, c, gone)
      ensures Seen(old(Snap()), k, c).Strings? && (found <==> v in Seen(old(Snap()), k, c).items)
    {
      var smembers;
      smembers, c, gone := SMembers(k);
      for i := 0 to |smembers|
        invariant v !in smembers[..i]
      {
        if smembers[i] == v {
          return true, c, gone;
        }
      }
      found := false;
    }

    method ZRevRangeAll(k: Key) returns (items: seq<string>, ghost c: Cached, ghost gone: set<Key>)
      requires Valid() && k.family.Recent?
      modifies this
      ensures Valid() && Represents(c, old(db), k)
      ensures Snap() == ReadThrough(old(Snap()), k, c, gone) && Strings(items) == Seen(old(Snap()), k, c)
    {
      items := H.ZRevRangeAll(ZOf(db, k));
      c, gone := Strings(items), {};
      if k in lru {
        items := lru[k].items;
        return;
      }
      gone := Add(k, Strings(items));
    }

    method HGetAll(k: Key) returns (rows: map<string, Roll>, ghost c: Cached, ghost gone: set<Key>)
      requires Valid() && k.family.Saved?
      modifies this
      ensures Valid() && Represents(c, old(db), k)
      ensures Snap() == ReadThrough(old(Snap()), k, c, gone) && Rows(rows) == Seen(old(Snap()), k, c)
    {
      rows := RowsOf(db, k);
      c, gone := Rows(rows), {};
      if k in lru {
        rows := lru[k].rows;
        return;
      }
      gone := Add(k, Rows(rows));
    }

    // -------------------------------------------------------------- history

    method CacheRoll(u: string, r: NamedRollInput, now: int) returns (ghost c: Cached, ghost gone: set<Key>)
      requires Valid()
      modifies this
      ensures Valid() && (OkForAutocomplete(old(r.Value())) ==> Represents(c, old(db), Key(Preferences, u)))
      ensures Snap() == StoreSpec.CacheRoll(cfg, old(Snap()), u, old(r.Value()), now, c, gone)
    {
      ghost var roll := r.Value();
      c, gone := Strings([]), {};
      if !OkForAutocomplete(r.Value()) {
        return;
      }
      var optedOut;
      optedOut, c, gone := SIsMember(Key(Preferences, u), NO_RECENT);
      if optedOut {
        return;
      }
      Record(Key(Recent, u), H.Event(Serialize(r.Value()), now));
      CacheRollCoherent(cfg, old(Snap()), u, roll, now, c, gone);
    }

    /** The pipeline: add, trim by rank, trim by score; then drop the cached list. */
    method Record(k: Key, ev: H.Event)
      modifies this
      ensures Snap() == Refresh(old(Snap()), k, Ranked(H.Recorded(ZOf(old(db), k), ev, cfg.maxHistory, cfg.recentTtl)))
    {
      var z := H.ZAdd(ZOf(db, k), H.Entry(ev.serial, H.Score(ev.at)));
      z := H.ZRemRangeByRank(z, 0, -1 - cfg.maxHistory);
      z := H.ZRemRangeByScore(z, H.Cutoff(ev.at, cfg.recentTtl));
      db := Put(db, k, Ranked(z));
      Remove(k);
    }

    method CachedSerials(u: string) returns (serials: seq<string>, ghost c: Cached, ghost gone: set<Key>)
      requires Valid()
      modifies this
      ensures Valid() && Represents(c, old(db), Key(Recent, u))
      ensures Snap() == ReadThrough(old(Snap()), Key(Recent, u), c, gone)
      ensures Strings(serials) == Seen(old(Snap()), Key(Recent, u), c)
    {
      serials, c, gone := ZRevRangeAll(Key(Recent, u));
    }

    // -------------------------------------------------------------- saved expressions

    method SetNamedRoll(u: string, r: NamedRollInput) returns (ok: bool)
      requires Valid()
      modifies this
      ensures Valid() && Snap() == StoreSpec.SetNamedRoll(old(Snap()), u, r.Value())
      ensures ok <==> OkForAutocomplete(r.Value())
    {
      ok := OkForAutocomplete(r.Value());
      if !ok {
        return;
      }
      var key := Key(Saved, u);
      db := Put(db, key, Table(RowsOf(db, key)[ID(r.Value()) := r.Value()]));
      Remove(key);
      SetNamedCoherent(old(Snap()), u, r.Value());
    }

    /** A submitted modal is cleaned in place, checked, and saved without a limit. */
    method ModalSave(u: string, r: NamedRollInput) returns (ok: bool)
      requires Valid()
      modifies this, r
      ensures Valid() && Snap() == StoreSpec.ModalSave(old(Snap()), u, old(r.Value()))
      ensures r.Value() == Cleaned(old(r.Value())) && (ok <==> RowOk(old(r.Value())))
    {
      r.Clean();
      if Validate(r.Value()).Some? {
        return false;
      }
      ok := SetNamedRoll(u, r);
    }

    method SlashSave(u: string, r: NamedRollInput) returns (ok: bool)
      requires Valid()
      modifies this, r
      ensures Valid() && Snap() == StoreSpec.SlashSave(cfg, old(Snap()), u, old(r.Value()))
      ensures ok <==> |RowsOf(old(db), Key(Saved, u))| < cfg.maxExpressions && RowOk(old(r.Value()))
      ensures r.Value() == if |RowsOf(old(db), Key(Saved, u))| < cfg.maxExpressions then Cleaned(old(r.Value()))
                           else old(r.Value())
    {
      var count := |RowsOf(db, Key(Saved, u))|;
      if count >= cfg.maxExpressions {
        return false;
      }
      ok := ModalSave(u, r);
    }

    method Unsave(u: string, id: string)
      requires Valid()
      modifies this
      ensures Valid() && Snap() == Apply(cfg, old(Snap()), Op.Unsave(u, id))
    {
      var key := Key(Saved, u);
      db := Put(db, key, Table(RowsOf(db, key) - {id}));
      dirty := dirty + {key};
      StepCoherent(cfg, old(Snap()), Op.Unsave(u, id));
    }

    method ClearExpressions(u: string)
      requires Valid()
      modifies this
      ensures Valid() && Snap() == Apply(cfg, old(Snap()), Op.ClearExpressions(u))
    {
      db := db - {Key(Saved, u)};
      dirty := dirty + {Key(Saved, u)};
      StepCoherent(cfg, old(Snap()), Op.ClearExpressions(u));
    }

    /** Import cleans every row in place, checks all of them, and only then
        replaces what was saved. */
    method ImportExpressions(u: string, rolls: seq<NamedRollInput>) returns (result: ImportResult)
      requires Valid() && forall i, j | 0 <= i < j < |rolls| :: rolls[i] != rolls[j]
      modifies this, rolls
      ensures Valid() && Snap() == Import(cfg, old(Snap()), u, old(Values(rolls)))
      ensures Answers(cfg, result, old(Values(rolls)))
      ensures CleanedUpTo(rolls, old(Values(rolls)), RowsRead(result, |rolls|))
    {
      ghost var rows := Values(rolls);
      if |rolls| > cfg.maxExpressions {
        return TooMany;
      }
      var bad := CheckRows(rolls, rows);
      if bad.Some? {
        return bad.value;
      }
      ghost var start := Snap();
      ReplaceAll(u, rolls, rows);
      assert Snap() == Import(cfg, start, u, rows);
      ImportAllOrNothing(cfg, start, u, rows);
      result := Imports(|RowsOf(db, Key(Saved, u))|);
    }

    /** The validation loop: it stops at the first bad row and writes nothing else. */
    method CheckRows(rolls: seq<NamedRollInput>, ghost rows: seq<Roll>) returns (bad: Option<ImportResult>)
      requires forall i, j | 0 <= i < j < |rolls| :: rolls[i] != rolls[j]
      requires CleanedUpTo(rolls, rows, 0)
      modifies rolls
      ensures bad.None? <==> AllOk(rows)
      ensures bad.Some? ==> Reports(bad.value, rows)
      ensures CleanedUpTo(rolls, rows, if bad.Some? then bad.value.row else |rolls|)
    {
      for n := 0 to |rolls|
        invariant AllOk(rows[..n]) && CleanedUpTo(rolls, rows, n)
      {
        bad := CheckRow(rolls, n, rows);
        NextOk(rows, n);
        if bad.Some? {
          BadRow(rows, n);
          return;
        }
      }
      assert rows[..|rolls|] == rows;
      bad := None;
    }

    /** One row: it is cleaned in place and checked twice. */
    method CheckRow(rolls: seq<NamedRollInput>, n: nat, ghost rows: seq<Roll>) returns (bad: Option<ImportResult>)
      requires forall i, j | 0 <= i < j < |rolls| :: rolls[i] != rolls[j]
      requires n < |rolls| && CleanedUpTo(rolls, rows, n)
      modifies rolls[n]
      ensures CleanedUpTo(rolls, rows, n + 1)
      ensures bad.None? <==> Fine(Cleaned(rows[n]))
      ensures bad.Some? ==> bad.value == Complaint(n + 1, Cleaned(rows[n]))
    {
      var roll := rolls[n];
      roll.Clean();
      CleanedAt(rows, n);
      assert forall k | 0 <= k < |rolls| && k != n :: rolls[k] != roll;
      var fault := Validate(roll.Value());
      if fault.Some? {
        return Some(Invalid(n + 1, fault.value));
      }
      bad := if OkForAutocomplete(roll.Value()) then None else Some(TooLong(n + 1));
    }

    /** The delete and the save loop. */
    method ReplaceAll(u: string, rolls: seq<NamedRollInput>, ghost rows: seq<Roll>)
      requires Valid() && CleanedUpTo(rolls, rows, |rolls|)
      modifies this
      ensures Valid() && Snap() == SaveAll(Delete(old(Snap()), Key(Saved, u)), u, rows)
    {
      var key := Key(Saved, u);
      db := db - {key};
      dirty := dirty + {key};
      DeleteCoherent(old(Snap()), key);
      ghost var start := Snap();
      for n := 0 to |rolls|
        invariant Valid() && Snap() == SaveAll(start, u, rows[..n])
        invariant CleanedUpTo(rolls, rows, |rolls|)
      {
        SaveRow(u, rolls, n, rows, start);
      }
      assert rows[..|rolls|] == rows;
    }

    method SaveRow(u: string, rolls: seq<NamedRollInput>, n: nat, ghost rows: seq<Roll>, ghost start: StoreSpec.Store)
      requires Valid() && CleanedUpTo(rolls, rows, |rolls|) && n < |rolls|
      requires Snap() == SaveAll(start, u, rows[..n])
      modifies this
      ensures Valid() && Snap() == SaveAll(start, u, rows[..n + 1])
    {
      CleanedAt(rows, n);
      SaveAllNext(start, u, rows, n);
      var _ := SetNamedRoll(u, rolls[n]);
    }

    // -------------------------------------------------------------- preferences and history

    method ClearRecent(u: string)
      requires Valid()
      modifies this
      ensures Valid() && Snap() == Apply(cfg, old(Snap()), Op.ClearRecent(u))
    {
      db := db - {Key(Recent, u)};
      dirty := dirty + {Key(Recent, u)};
      StepCoherent(cfg, old(Snap()), Op.ClearRecent(u));
    }

    method UserSetPreference(u: string, name: string)
      requires Valid()
      modifies this
      ensures Valid() && Snap() == AddPreference(old(Snap()), u, name)
    {
      var key := Key(Preferences, u);
      db := Put(db, key, Names(NamesOf(db, key) + {name}));
      dirty := dirty + {key};
      StepCoherent(cfg, old(Snap()), SetPreference(u, name));
    }

    method UserUnsetPreference(u: string, name: string)
      requires Valid()
      modifies this
      ensures Valid() && Snap() == Apply(cfg, old(Snap()), UnsetPreference(u, name))
    {
      var key := Key(Preferences, u);
      db := Put(db, key, Names(NamesOf(db, key) - {name}));
      dirty := dirty + {key};
      StepCoherent(cfg, old(Snap()), UnsetPreference(u, name));
    }

    method PreferRecent(u: string, enabled: bool)
      requires Valid()
      modifies this
      ensures Valid()
      ensures Snap() == Apply(cfg, old(Snap()), if enabled then UnsetPreference(u, NO_RECENT) else DisableRecent(u))
    {
      if enabled {
        UserUnsetPreference(u, NO_RECENT);
      } else {
        UserSetPreference(u, NO_RECENT);
        ClearRecent(u);
      }
    }
  }

  ghost function Values(rolls: seq<NamedRollInput>): seq<Roll>
    reads rolls
  {
    seq(|rolls|, i requires 0 <= i < |rolls| reads rolls => rolls[i].Value())
  }

  /** The first `n` rolls are the cleaned rows; the others are the rows as they came. */
  ghost predicate CleanedUpTo(rolls: seq<NamedRollInput>, rows: seq<Roll>, n: nat)
    reads rolls
  {
    && |rows| == |rolls|
    && forall k | 0 <= k < |rolls| :: rolls[k].Value() == if k < n then CleanedRows(rows)[k] else rows[k]
  }

  /** The rows as an import leaves them. */
  function CleanedRows(rows: seq<Roll>): (r: seq<Roll>)
    ensures |r| == |rows|
  {
    if rows == [] then [] else CleanedRows(rows[..|rows| - 1]) + [Cleaned(rows[|rows| - 1])]
  }

  lemma {:induction false} CleanedAt(rows: seq<Roll>, n: nat)
    requires n < |rows|
    ensures CleanedRows(rows)[n] == Cleaned(rows[n])
  {
    if n + 1 < |rows| {
      CleanedAt(rows[..|rows| - 1], n);
    }
  }

  lemma SaveAllNext(s: Store, u: string, rows: seq<Roll>, n: nat)
    requires n < |rows|
    ensures SaveAll(s, u, rows[..n + 1]) == StoreSpec.SetNamedRoll(SaveAll(s, u, rows[..n]), u, Cleaned(rows[n]))
  {
    assert rows[..n + 1][..n] == rows[..n];
  }

  lemma AddIsReadThrough(s: Store, t: Store, k: Key, c: Cached, gone: set<Key>)
    requires k !in s.lru && k !in gone
    requires t == Store(s.db, s.lru[k := c] - gone, s.dirty - {k})
    ensures t == ReadThrough(s, k, c, gone)
  {
    assert gone - {k} == gone;
  }

  lemma NextOk(rows: seq<Roll>, n: nat)
    requires n < |rows|
    ensures AllOk(rows[..n + 1]) <==> AllOk(rows[..n]) && Fine(Cleaned(rows[n]))
  {
    assert rows[..n + 1][..n] == rows[..n];
  }

  lemma {:induction false} BadRow(rows: seq<Roll>, n: nat)
    requires n < |rows| && !AllOk(rows[..n + 1])
    ensures !AllOk(rows)
  {
    if n + 1 < |rows| {
      assert rows[..|rows| - 1][..n + 1] == rows[..n + 1];
      BadRow(rows[..|rows| - 1], n);
    } else {
      assert rows[..n + 1] == rows;
    }
  }

  /** The check fails exactly when some row fails. */
  lemma {:induction false} OkRow(rows: seq<Roll>, n: nat)
    requires n < |rows| && AllOk(rows)
    ensures RowOk(rows[n])
  {
    if n + 1 < |rows| {
      OkRow(rows[..|rows| - 1], n);
    }
  }

  lemma {:induction false} FindBadRow(rows: seq<Roll>) returns (n: nat)
    requires !AllOk(rows)
    ensures n < |rows| && !RowOk(rows[n])
  {
    var last := |rows| - 1;
    if AllOk(rows[..last]) {
      n := last;
    } else {
      n := FindBadRow(rows[..last]);
    }
  }
}
