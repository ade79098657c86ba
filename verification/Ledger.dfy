/**
  What a user's saved expressions and preferences are after any run: decided, for
  each ID and each preference, by the last operation that touched it.
 */
module Ledger {
  import opened Text
  import opened Rolls
  import opened StoreSpec
  import opened SavedExpressions
  import H = History

  // ---------------------------------------------------------------- saved expressions

  /** The operation files `r` under `id` for `u`: a save that passes both checks, with
      room if it is the slash command's, or an accepted import whose last row with that
      ID it is. */
  ghost predicate Files(cfg: Config, s: Store, op: Op, u: string, id: string, r: Roll) {
    match op
    case DoModalSave(v, x) => v == u && RowOk(x) && Cleaned(x) == r && ID(r) == id
    case DoSlashSave(v, x) =>
      v == u && RowOk(x) && Cleaned(x) == r && ID(r) == id && |RowsOf(s.db, Key(Saved, u))| < cfg.maxExpressions
    case DoImport(v, rows) =>
      v == u && ImportOk(cfg, rows) && exists i :: IsLast(Entries(rows), i) && Entries(rows)[i] == (id, r)
    case _ => false
  }

  /** The operation takes away whatever was filed under `id`. */
  predicate Removes(cfg: Config, op: Op, u: string, id: string) {
    match op
    case Unsave(v, x) => v == u && x == id
    case ClearExpressions(v) => v == u
    case Expire(k) => k == Key(Saved, u)
    case DoImport(v, rows) => v == u && ImportOk(cfg, rows)
    case _ => false
  }

  ghost predicate Touches(cfg: Config, s: Store, op: Op, u: string, id: string) {
    Removes(cfg, op, u, id) || exists r :: Files(cfg, s, op, u, id, r)
  }

  ghost predicate HasRow(db: Db, u: string, id: string, r: Roll) {
    id in RowsOf(db, Key(Saved, u)) && RowsOf(db, Key(Saved, u))[id] == r
  }

  /** One operation: a row is there afterwards exactly when the operation filed it, or
      it was there and the operation left its ID alone. */
  ghost predicate RowMoves(cfg: Config, s: Store, op: Op, u: string, id: string, r: Roll) {
    HasRow(Apply(cfg, s, op).db, u, id, r) <==>
      Files(cfg, s, op, u, id, r) || (HasRow(s.db, u, id, r) && !Touches(cfg, s, op, u, id))
  }

  /** A save leaves the old table with the cleaned roll under its ID, if it passes. */
  lemma ModalSaveTable(s: Store, u: string, r: Roll)
    ensures var rows := RowsOf(s.db, Key(Saved, u));
            RowsOf(ModalSave(s, u, r).db, Key(Saved, u)) ==
            if RowOk(r) then rows[ID(Cleaned(r)) := Cleaned(r)] else rows
  {
    if RowOk(r) {
      SetNamedRows(s, u, Cleaned(r));
    }
  }

  /** The slash command also needs room. */
  lemma SlashSaveTable(cfg: Config, s: Store, u: string, r: Roll)
    ensures var rows := RowsOf(s.db, Key(Saved, u));
            RowsOf(SlashSave(cfg, s, u, r).db, Key(Saved, u)) ==
            if |rows| < cfg.maxExpressions && RowOk(r) then rows[ID(Cleaned(r)) := Cleaned(r)] else rows
  {
    ModalSaveTable(s, u, r);
  }

  /** Unsaving takes away the row with that ID and no other. */
  lemma UnsaveTable(cfg: Config, s: Store, u: string, id: string, x: string, r: Roll)
    ensures HasRow(Apply(cfg, s, Unsave(u, id)).db, u, x, r) <==> x != id && HasRow(s.db, u, x, r)
  {
    var k := Key(Saved, u);
    assert RowsOf(Apply(cfg, s, Unsave(u, id)).db, k) == RowsOf(s.db, k) - {id};
  }

  /** A save by this user that goes through. */
  predicate Saves(cfg: Config, s: Store, op: Op, u: string) {
    && (op.DoModalSave? || op.DoSlashSave?) && op.u == u && RowOk(op.r)
    && (op.DoSlashSave? ==> |RowsOf(s.db, Key(Saved, u))| < cfg.maxExpressions)
  }

  lemma SaveTable(cfg: Config, s: Store, op: Op, u: string)
    requires (op.DoModalSave? || op.DoSlashSave?) && op.u == u
    ensures var rows := RowsOf(s.db, Key(Saved, u));
            RowsOf(Apply(cfg, s, op).db, Key(Saved, u)) ==
            if Saves(cfg, s, op, u) then rows[ID(Cleaned(op.r)) := Cleaned(op.r)] else rows
  {
    if op.DoModalSave? {
      ModalSaveTable(s, u, op.r);
    } else {
      SlashSaveTable(cfg, s, u, op.r);
    }
  }

  lemma SaveFiles(cfg: Config, s: Store, op: Op, u: string, id: string, r: Roll)
    requires op.DoModalSave? || op.DoSlashSave?
    ensures Files(cfg, s, op, u, id, r) <==> Saves(cfg, s, op, u) && r == Cleaned(op.r) && id == ID(Cleaned(op.r))
  {
  }

  lemma SaveTouches(cfg: Config, s: Store, op: Op, u: string, id: string)
    requires op.DoModalSave? || op.DoSlashSave?
    ensures Touches(cfg, s, op, u, id) <==> Saves(cfg, s, op, u) && id == ID(Cleaned(op.r))
  {
    SaveFiles(cfg, s, op, u, id, Cleaned(op.r));
    forall r
      ensures Files(cfg, s, op, u, id, r) ==> Saves(cfg, s, op, u) && id == ID(Cleaned(op.r))
    {
      SaveFiles(cfg, s, op, u, id, r);
    }
  }

  lemma SaveMoves(cfg: Config, s: Store, op: Op, u: string, id: string, r: Roll)
    requires (op.DoModalSave? || op.DoSlashSave?) && op.u == u
    ensures RowMoves(cfg, s, op, u, id, r)
  {
    SaveTable(cfg, s, op, u);
    SaveFiles(cfg, s, op, u, id, r);
    SaveTouches(cfg, s, op, u, id);
  }

  lemma ImportMoves(cfg: Config, s: Store, op: Op, u: string, id: string, r: Roll)
    requires op.DoImport? && op.u == u
    ensures RowMoves(cfg, s, op, u, id, r)
  {
    ImportAllOrNothing(cfg, s, u, op.rows);
    LastWriterWins(Entries(op.rows), id, r);
  }

  lemma UnfiledMoves(cfg: Config, s: Store, op: Op, u: string, id: string, r: Roll)
    requires !op.DoModalSave? && !op.DoSlashSave? && !op.DoImport?
    ensures RowMoves(cfg, s, op, u, id, r)
  {
    assert forall x :: !Files(cfg, s, op, u, id, x);
    if op.Unsave? && op.u == u {
      UnsaveTable(cfg, s, u, op.id, id, r);
    } else {
      SameOrGone(cfg, s, op, u);
    }
  }

  /** The other operations leave the table as it is or take it away whole. */
  lemma SameOrGone(cfg: Config, s: Store, op: Op, u: string)
    requires !op.DoModalSave? && !op.DoSlashSave? && !op.DoImport? && !(op.Unsave? && op.u == u)
    ensures var k := Key(Saved, u);
            RowsOf(Apply(cfg, s, op).db, k) ==
            if op == ClearExpressions(u) || op == Expire(k) then map[] else RowsOf(s.db, k)
  {
  }

  lemma OthersMove(cfg: Config, s: Store, op: Op, u: string, id: string, r: Roll)
    requires (op.DoModalSave? || op.DoSlashSave? || op.DoImport?) && op.u != u
    ensures RowMoves(cfg, s, op, u, id, r)
  {
    OtherUsersRows(cfg, s, op, u);
    assert forall x :: !Files(cfg, s, op, u, id, x);
  }

  lemma StepRow(cfg: Config, s: Store, op: Op, u: string, id: string, r: Roll)
    ensures RowMoves(cfg, s, op, u, id, r)
  {
    if !op.DoModalSave? && !op.DoSlashSave? && !op.DoImport? {
      UnfiledMoves(cfg, s, op, u, id, r);
    } else if op.u != u {
      OthersMove(cfg, s, op, u, id, r);
    } else if op.DoImport? {
      ImportMoves(cfg, s, op, u, id, r);
    } else {
      SaveMoves(cfg, s, op, u, id, r);
    }
  }

  /** Operation `j` of the run touched the ID. */
  ghost predicate TouchedAt(cfg: Config, ops: seq<Op>, u: string, id: string, j: int)
    requires 0 <= j < |ops|
  {
    Touches(cfg, Run(cfg, ops[..j]), ops[j], u, id)
  }

  ghost predicate FiledAt(cfg: Config, ops: seq<Op>, u: string, id: string, r: Roll, i: int)
    requires 0 <= i < |ops|
  {
    Files(cfg, Run(cfg, ops[..i]), ops[i], u, id, r)
  }

  lemma SameBefore(cfg: Config, ops: seq<Op>, u: string, id: string, r: Roll, j: int)
    requires 0 <= j < |ops| - 1
    ensures TouchedAt(cfg, ops[..|ops| - 1], u, id, j) <==> TouchedAt(cfg, ops, u, id, j)
    ensures FiledAt(cfg, ops[..|ops| - 1], u, id, r, j) <==> FiledAt(cfg, ops, u, id, r, j)
  {
    assert ops[..|ops| - 1][..j] == ops[..j];
  }

  ghost predicate UntouchedAfter(cfg: Config, ops: seq<Op>, u: string, id: string, i: int) {
    forall j | i < j < |ops| && 0 <= j :: !TouchedAt(cfg, ops, u, id, j)
  }

  lemma UntouchedBefore(cfg: Config, ops: seq<Op>, u: string, id: string, i: int)
    requires 0 <= i < |ops| - 1
    ensures var n := |ops| - 1;
            UntouchedAfter(cfg, ops, u, id, i) <==>
            UntouchedAfter(cfg, ops[..n], u, id, i) && !TouchedAt(cfg, ops, u, id, n)
  {
    var n := |ops| - 1;
    forall j | 0 <= j < n
      ensures TouchedAt(cfg, ops[..n], u, id, j) <==> TouchedAt(cfg, ops, u, id, j)
    {
      SameBefore(cfg, ops, u, id, EMPTY, j);
    }
  }

  /** Operation `i` of the run filed the row, and no later one touched its ID. */
  ghost predicate LastFiled(cfg: Config, ops: seq<Op>, u: string, id: string, r: Roll, i: int) {
    0 <= i < |ops| && FiledAt(cfg, ops, u, id, r, i) && UntouchedAfter(cfg, ops, u, id, i)
  }

  lemma LastFiledBefore(cfg: Config, ops: seq<Op>, u: string, id: string, r: Roll, i: int)
    requires 0 <= i < |ops| - 1
    ensures var n := |ops| - 1;
            LastFiled(cfg, ops, u, id, r, i) <==>
            LastFiled(cfg, ops[..n], u, id, r, i) && !TouchedAt(cfg, ops, u, id, n)
  {
    SameBefore(cfg, ops, u, id, r, i);
    UntouchedBefore(cfg, ops, u, id, i);
  }

  /** Some operation of the run filed the row last. */
  ghost predicate FiledLast(cfg: Config, ops: seq<Op>, u: string, id: string, r: Roll) {
    exists i :: LastFiled(cfg, ops, u, id, r, i)
  }

  lemma FiledLastThen(cfg: Config, ops: seq<Op>, u: string, id: string, r: Roll, i: int)
    requires LastFiled(cfg, ops, u, id, r, i)
    ensures var n := |ops| - 1;
            FiledAt(cfg, ops, u, id, r, n) ||
            (LastFiled(cfg, ops[..n], u, id, r, i) && !TouchedAt(cfg, ops, u, id, n))
  {
    if i < |ops| - 1 {
      LastFiledBefore(cfg, ops, u, id, r, i);
    }
  }

  lemma FiledLastNow(cfg: Config, ops: seq<Op>, u: string, id: string, r: Roll)
    requires ops != []
    requires var n := |ops| - 1;
             FiledAt(cfg, ops, u, id, r, n) ||
             (FiledLast(cfg, ops[..n], u, id, r) && !TouchedAt(cfg, ops, u, id, n))
    ensures FiledLast(cfg, ops, u, id, r)
  {
    var n := |ops| - 1;
    if FiledAt(cfg, ops, u, id, r, n) {
      assert LastFiled(cfg, ops, u, id, r, n);
    } else {
      var i :| LastFiled(cfg, ops[..n], u, id, r, i);
      LastFiledBefore(cfg, ops, u, id, r, i);
    }
  }

  lemma FiledLastStep(cfg: Config, ops: seq<Op>, u: string, id: string, r: Roll)
    requires ops != []
    ensures var n := |ops| - 1;
            FiledLast(cfg, ops, u, id, r) <==>
            FiledAt(cfg, ops, u, id, r, n) ||
            (FiledLast(cfg, ops[..n], u, id, r) && !TouchedAt(cfg, ops, u, id, n))
  {
    if FiledLast(cfg, ops, u, id, r) {
      var i :| LastFiled(cfg, ops, u, id, r, i);
      FiledLastThen(cfg, ops, u, id, r, i);
    } else {
      var n := |ops| - 1;
      if FiledAt(cfg, ops, u, id, r, n) || (FiledLast(cfg, ops[..n], u, id, r) && !TouchedAt(cfg, ops, u, id, n)) {
        FiledLastNow(cfg, ops, u, id, r);
      }
    }
  }

  /** After any run, an ID is filed with a roll exactly when the last operation that
      touched the ID, a save, an import, an unsave, a clear or an expiry, filed it. */
  lemma {:induction false} SavedIsLastExactly(cfg: Config, ops: seq<Op>, u: string, id: string, r: Roll)
    ensures HasRow(Run(cfg, ops).db, u, id, r) <==> FiledLast(cfg, ops, u, id, r)
  {
    if ops != [] {
      var n := |ops| - 1;
      SavedIsLastExactly(cfg, ops[..n], u, id, r);
      StepRow(cfg, Run(cfg, ops[..n]), ops[n], u, id, r);
      FiledLastStep(cfg, ops, u, id, r);
    }
  }

  // ---------------------------------------------------------------- preferences

  predicate Sets(op: Op, u: string, name: string) {
    op == SetPreference(u, name) || (name == NO_RECENT && op == DisableRecent(u))
  }

  predicate Unsets(op: Op, u: string, name: string) {
    op == UnsetPreference(u, name) || op == Expire(Key(Preferences, u))
  }

  lemma NamesFrame(s: Store, t: Store, own: Key, u: string)
    requires s.db - {own} == t.db - {own} && own != Key(Preferences, u)
    ensures NamesOf(t.db, Key(Preferences, u)) == NamesOf(s.db, Key(Preferences, u))
  {
    var k := Key(Preferences, u);
    assert k in s.db <==> k in s.db - {own};
    assert k in t.db <==> k in t.db - {own};
    assert k in s.db ==> s.db[k] == (s.db - {own})[k] == (t.db - {own})[k] == t.db[k];
  }

  lemma SavesKeepNames(cfg: Config, s: Store, op: Op, u: string)
    requires op.DoModalSave? || op.DoSlashSave? || op.DoImport?
    ensures NamesOf(Apply(cfg, s, op).db, Key(Preferences, u)) == NamesOf(s.db, Key(Preferences, u))
  {
    if op.DoImport? {
      ImportAllOrNothing(cfg, s, op.u, op.rows);
    } else {
      ModalSaveFrame(s, op.u, op.r);
    }
    NamesFrame(s, Apply(cfg, s, op), Key(Saved, op.u), u);
  }

  lemma CacheRollKeepsNames(cfg: Config, s: Store, op: Op, u: string)
    requires op.DoCacheRoll?
    ensures NamesOf(Apply(cfg, s, op).db, Key(Preferences, u)) == NamesOf(s.db, Key(Preferences, u))
  {
    assert Key(Recent, op.u) != Key(Preferences, u);
  }

  lemma PreferenceWrites(cfg: Config, s: Store, op: Op, u: string)
    requires op.SetPreference? || op.UnsetPreference? || op.DisableRecent?
    ensures var k := Key(Preferences, u);
            NamesOf(Apply(cfg, s, op).db, k) ==
            if op.u != u then NamesOf(s.db, k)
            else if op.SetPreference? then NamesOf(s.db, k) + {op.name}
            else if op.UnsetPreference? then NamesOf(s.db, k) - {op.name}
            else NamesOf(s.db, k) + {NO_RECENT}
  {
  }

  lemma StepName(cfg: Config, s: Store, op: Op, u: string, name: string)
    ensures name in NamesOf(Apply(cfg, s, op).db, Key(Preferences, u)) <==>
            Sets(op, u, name) || (name in NamesOf(s.db, Key(Preferences, u)) && !Unsets(op, u, name))
  {
    if op.DoModalSave? || op.DoSlashSave? || op.DoImport? {
      SavesKeepNames(cfg, s, op, u);
    } else if op.DoCacheRoll? {
      CacheRollKeepsNames(cfg, s, op, u);
    } else if op.SetPreference? || op.UnsetPreference? || op.DisableRecent? {
      PreferenceWrites(cfg, s, op, u);
    }
  }

  ghost predicate LastSet(ops: seq<Op>, u: string, name: string, i: int) {
    0 <= i < |ops| && Sets(ops[i], u, name) && forall j | i < j < |ops| :: !Unsets(ops[j], u, name)
  }

  /** The preference was set in the run and not unset since. */
  ghost predicate SetLast(ops: seq<Op>, u: string, name: string) {
    exists i :: LastSet(ops, u, name, i)
  }

  lemma LastSetBefore(ops: seq<Op>, u: string, name: string, i: int)
    requires 0 <= i < |ops| - 1
    ensures var n := |ops| - 1;
            LastSet(ops, u, name, i) <==> LastSet(ops[..n], u, name, i) && !Unsets(ops[n], u, name)
  {
    var prev := ops[..|ops| - 1];
    assert forall j | 0 <= j < |prev| :: prev[j] == ops[j];
  }

  lemma SetLastStep(ops: seq<Op>, u: string, name: string)
    requires ops != []
    ensures var n := |ops| - 1;
            SetLast(ops, u, name) <==> Sets(ops[n], u, name) || (SetLast(ops[..n], u, name) && !Unsets(ops[n], u, name))
  {
    var n := |ops| - 1;
    if Sets(ops[n], u, name) {
      assert LastSet(ops, u, name, n);
    } else if SetLast(ops, u, name) {
      var i :| LastSet(ops, u, name, i);
      LastSetBefore(ops, u, name, i);
    } else if SetLast(ops[..n], u, name) {
      var i :| LastSet(ops[..n], u, name, i);
      LastSetBefore(ops, u, name, i);
    }
  }

  /** After any run, a user has a preference exactly when it was set and not unset since. */
  lemma {:induction false} PreferenceIsLastExactly(cfg: Config, ops: seq<Op>, u: string, name: string)
    ensures name in NamesOf(Run(cfg, ops).db, Key(Preferences, u)) <==> SetLast(ops, u, name)
  {
    if ops != [] {
      var n := |ops| - 1;
      PreferenceIsLastExactly(cfg, ops[..n], u, name);
      StepName(cfg, Run(cfg, ops[..n]), ops[n], u, name);
      SetLastStep(ops, u, name);
    }
  }

  /** The preference for detailed output is another one: setting or unsetting it changes
      nothing about the opt-out. */
  lemma OutputIsNoOptOut(cfg: Config, s: Store, u: string, on: bool)
    ensures var op := if on then SetPreference(u, "detailed") else UnsetPreference(u, "detailed");
            NO_RECENT in NamesOf(Apply(cfg, s, op).db, Key(Preferences, u)) <==>
            NO_RECENT in NamesOf(s.db, Key(Preferences, u))
  {
    var op := if on then SetPreference(u, "detailed") else UnsetPreference(u, "detailed");
    assert NO_RECENT[0] != "detailed"[0];
    StepName(cfg, s, op, u, NO_RECENT);
  }
}
