/**
  A user's saved expressions: the all-or-nothing import, and what every run of
  saves, removals and imports keeps.
 */
module SavedExpressions {
  import opened Text
  import opened Rolls
  import opened StoreSpec

  // ---------------------------------------------------------------- import

  /** Filing entries left to right, so that the last writer wins. */
  function File(entries: seq<(string, Roll)>): map<string, Roll> {
    if entries == [] then map[]
    else
      var n := |entries| - 1;
      File(entries[..n])[entries[n].0 := entries[n].1]
  }

  /** The rows of an import, cleaned and paired with their IDs. */
  function Entries(rows: seq<Roll>): seq<(string, Roll)> {
    seq(|rows|, i requires 0 <= i < |rows| => (ID(Cleaned(rows[i])), Cleaned(rows[i])))
  }

  function Imported(rows: seq<Roll>): map<string, Roll> {
    File(Entries(rows))
  }

  /** `i` is the last entry with its ID. */
  ghost predicate IsLast(entries: seq<(string, Roll)>, i: int) {
    0 <= i < |entries| && forall j | i < j < |entries| :: entries[j].0 != entries[i].0
  }

  /** The position of the last entry with a given ID. */
  lemma {:induction false} LastOf(entries: seq<(string, Roll)>, k: int) returns (i: nat)
    requires 0 <= k < |entries|
    ensures IsLast(entries, i) && entries[i].0 == entries[k].0
    decreases |entries| - k
  {
    i := k;
    if j :| k < j < |entries| && entries[j].0 == entries[k].0 {
      i := LastOf(entries, j);
    }
  }

  lemma {:induction false} LastIsFiled(entries: seq<(string, Roll)>, i: int)
    requires IsLast(entries, i)
    ensures entries[i].0 in File(entries) && File(entries)[entries[i].0] == entries[i].1
  {
    var n := |entries| - 1;
    if i < n {
      assert IsLast(entries[..n], i);
      LastIsFiled(entries[..n], i);
    }
  }

  lemma {:induction false} FiledIsEntry(entries: seq<(string, Roll)>, id: string) returns (i: nat)
    requires id in File(entries)
    ensures i < |entries| && entries[i].0 == id
  {
    var n := |entries| - 1;
    if entries[n].0 == id {
      i := n;
    } else {
      i := FiledIsEntry(entries[..n], id);
    }
  }

  lemma {:induction false} FileSize(entries: seq<(string, Roll)>)
    ensures |File(entries)| <= |entries|
  {
    if entries != [] {
      var n := |entries| - 1;
      FileSize(entries[..n]);
      UpdateSize(File(entries[..n]), entries[n].0, entries[n].1);
    }
  }

  /** An ID is filed with a roll exactly when that roll is the last entry with the ID. */
  lemma LastWriterWins(entries: seq<(string, Roll)>, id: string, r: Roll)
    ensures id in File(entries) && File(entries)[id] == r <==>
            exists i :: IsLast(entries, i) && entries[i] == (id, r)
    ensures |File(entries)| <= |entries|
  {
    FileSize(entries);
    if id in File(entries) {
      var k := FiledIsEntry(entries, id);
      var i := LastOf(entries, k);
      LastIsFiled(entries, i);
      assert entries[i] == (id, File(entries)[id]);
    }
    if i :| IsLast(entries, i) && entries[i] == (id, r) {
      LastIsFiled(entries, i);
    }
  }

  lemma UpdateSize<K, V>(m: map<K, V>, k: K, v: V)
    ensures |m| <= |m[k := v]| <= |m| + 1
    ensures k !in m ==> |m[k := v]| == |m| + 1
  {
    assert m[k := v].Keys == m.Keys + {k};
    if k in m {
      assert m.Keys + {k} == m.Keys;
    }
  }

  lemma RemoveSize<K, V>(m: map<K, V>, k: K)
    ensures |m - {k}| <= |m|
    ensures k in m ==> |m - {k}| == |m| - 1
  {
    assert (m - {k}).Keys == m.Keys - {k};
  }

  lemma SetNamedRows(s: Store, u: string, r: Roll)
    requires OkForAutocomplete(r)
    ensures RowsOf(SetNamedRoll(s, u, r).db, Key(Saved, u)) == RowsOf(s.db, Key(Saved, u))[ID(r) := r]
  {
  }

  lemma {:induction false} SaveAllRows(s: Store, u: string, rows: seq<Roll>)
    requires AllOk(rows)
    requires RowsOf(s.db, Key(Saved, u)) == map[]
    ensures RowsOf(SaveAll(s, u, rows).db, Key(Saved, u)) == Imported(rows)
  {
    if rows != [] {
      var n := |rows| - 1;
      SaveAllRows(s, u, rows[..n]);
      assert Entries(rows)[..n] == Entries(rows[..n]);
      SetNamedRows(SaveAll(s, u, rows[..n]), u, Cleaned(rows[n]));
    }
  }

  lemma {:induction false} SaveAllFrame(s: Store, u: string, rows: seq<Roll>)
    ensures var t := SaveAll(s, u, rows);
            && t.db - {Key(Saved, u)} == s.db - {Key(Saved, u)}
            && t.lru - {Key(Saved, u)} == s.lru - {Key(Saved, u)}
            && t.dirty - {Key(Saved, u)} == s.dirty - {Key(Saved, u)}
  {
    if rows != [] {
      SaveAllFrame(s, u, rows[..|rows| - 1]);
    }
  }

  /** An import either changes nothing, or the saved expressions become exactly
      the cleaned rows; no row is lost to the second check made while saving. */
  lemma ImportAllOrNothing(cfg: Config, s: Store, u: string, rows: seq<Roll>)
    ensures !ImportOk(cfg, rows) ==> Import(cfg, s, u, rows) == s
    ensures ImportOk(cfg, rows) ==> RowsOf(Import(cfg, s, u, rows).db, Key(Saved, u)) == Imported(rows)
    ensures Import(cfg, s, u, rows).db - {Key(Saved, u)} == s.db - {Key(Saved, u)}
  {
    if ImportOk(cfg, rows) {
      var t := Delete(s, Key(Saved, u));
      SaveAllRows(t, u, rows);
      SaveAllFrame(t, u, rows);
    }
  }

  // ---------------------------------------------------------------- what every run keeps

  /** A saved roll is clean, valid, within Discord's limits, and filed under its own ID. */
  predicate Filed(id: string, r: Roll) {
    ID(r) == id && IsClean(r) && Validate(r).None? && OkForAutocomplete(r)
  }

  /** The limits of a saved roll in numbers: those of its fields, of the text that
      rolls it, and of the text that shows it. */
  lemma FiledExactly(id: string, r: Roll)
    ensures Filed(id, r) <==>
            && ID(r) == id && IsClean(r)
            && 1 <= |r.expression| <= 100 && |r.name| <= 32 && |r.caption| <= 32
            && |r.expression| + (if r.caption != "" then |r.caption| + 3 else 0) <= 100
            && |r.expression| + (if r.name != "" then |r.name| + 3 else 0)
               + (if r.caption != "" then |r.caption| + 2 else 0) <= 100
  {
  }

  /** A saved unnamed roll shares its ID with a roll that can be saved under a name
      exactly when the ID fits the limit of a name. */
  lemma SavedCollisionExactly(id: string, u: Roll)
    requires Filed(id, u) && u.name == ""
    ensures (exists named: Roll :: named.name != "" && Filed(id, named)) <==> |id| <= 32
  {
    if |id| <= 32 {
      var named := Roll(u.expression, id, "");
      assert id == u.expression + ([DELIM] + u.caption + [DELIM]);
      assert id[0] == u.expression[0] && id[|id| - 1] == DELIM;
      FiledExactly(id, u);
      FiledExactly(id, named);
    }
  }

  /** Such a pair, one roll hiding the other in the saved table. */
  lemma SavedCollision()
    ensures Filed("1||", Roll("1", "", "")) && Filed("1||", Roll("2", "1||", ""))
  {
    var u := Roll("1", "", "");
    assert Serialize(u) == "1||";
    FiledExactly("1||", u);
    FiledExactly("1||", Roll("2", "1||", ""));
  }

  ghost predicate AllFiled(s: Store) {
    forall u: string, id: string :: id in RowsOf(s.db, Key(Saved, u)) ==> Filed(id, RowsOf(s.db, Key(Saved, u))[id])
  }

  lemma SetNamedOthers(s: Store, u: string, r: Roll)
    ensures forall v: string | v != u :: RowsOf(SetNamedRoll(s, u, r).db, Key(Saved, v)) == RowsOf(s.db, Key(Saved, v))
  {
  }

  lemma SetNamedFiled(s: Store, u: string, r: Roll)
    requires AllFiled(s) && IsClean(r) && Validate(r).None?
    ensures AllFiled(SetNamedRoll(s, u, r))
    ensures |RowsOf(SetNamedRoll(s, u, r).db, Key(Saved, u))| <= |RowsOf(s.db, Key(Saved, u))| + 1
  {
    if OkForAutocomplete(r) {
      SetNamedRows(s, u, r);
      UpdateSize(RowsOf(s.db, Key(Saved, u)), ID(r), r);
      SetNamedOthers(s, u, r);
      AllFiledUpdate(s, SetNamedRoll(s, u, r), u, ID(r), r);
    }
  }

  lemma AllFiledUpdate(s: Store, t: Store, u: string, id: string, r: Roll)
    requires AllFiled(s) && Filed(id, r)
    requires forall v: string | v != u :: RowsOf(t.db, Key(Saved, v)) == RowsOf(s.db, Key(Saved, v))
    requires RowsOf(t.db, Key(Saved, u)) == RowsOf(s.db, Key(Saved, u))[id := r]
    ensures AllFiled(t)
  {
  }

  lemma ModalSaveFiled(s: Store, u: string, r: Roll)
    requires AllFiled(s)
    ensures AllFiled(ModalSave(s, u, r))
    ensures |RowsOf(ModalSave(s, u, r).db, Key(Saved, u))| <= |RowsOf(s.db, Key(Saved, u))| + 1
  {
    CleanedIsClean(r);
    if Validate(Cleaned(r)).None? {
      SetNamedFiled(s, u, Cleaned(r));
    }
  }

  lemma EntryFiled(r: Roll)
    requires RowOk(r)
    ensures Filed(ID(Cleaned(r)), Cleaned(r))
  {
    CleanedIsClean(r);
  }

  lemma {:induction false} ImportedFiled(rows: seq<Roll>)
    requires AllOk(rows)
    ensures forall id | id in Imported(rows) :: Filed(id, Imported(rows)[id])
  {
    if rows != [] {
      var n := |rows| - 1;
      ImportedFiled(rows[..n]);
      EntryFiled(rows[n]);
      assert Entries(rows)[..n] == Entries(rows[..n]);
      var id, r := ID(Cleaned(rows[n])), Cleaned(rows[n]);
      assert Imported(rows) == Imported(rows[..n])[id := r];
    }
  }

  lemma ImportFiled(cfg: Config, s: Store, u: string, rows: seq<Roll>)
    requires AllFiled(s)
    ensures AllFiled(Import(cfg, s, u, rows))
  {
    if ImportOk(cfg, rows) {
      var t := Import(cfg, s, u, rows);
      ImportAllOrNothing(cfg, s, u, rows);
      ImportedFiled(rows);
      forall v: string, id: string | id in RowsOf(t.db, Key(Saved, v))
        ensures Filed(id, RowsOf(t.db, Key(Saved, v))[id])
      {
        if v != u {
          var k := Key(Saved, v);
          SameRows(s.db, t.db, Key(Saved, u), k);
        }
      }
    }
  }

  /** The modal saves since the last clear or accepted import. */
  function ModalSaves(cfg: Config, ops: seq<Op>, u: string): nat {
    if ops == [] then 0
    else
      var before := ModalSaves(cfg, ops[..|ops| - 1], u);
      match ops[|ops| - 1]
      case DoModalSave(v, _) => if v == u then before + 1 else before
      case ClearExpressions(v) => if v == u then 0 else before
      case DoImport(v, rows) => if v == u && ImportOk(cfg, rows) then 0 else before
      case _ => before
  }

  lemma StepFiled(cfg: Config, s: Store, op: Op)
    requires AllFiled(s)
    ensures AllFiled(Apply(cfg, s, op))
  {
    match op
    case DoSlashSave(u, r) => ModalSaveFiled(s, u, r);
    case DoModalSave(u, r) => ModalSaveFiled(s, u, r);
    case DoImport(u, rows) => ImportFiled(cfg, s, u, rows);
    case _ => RemovalFiled(cfg, s, op);
  }

  /** `after` is `before`, nothing, or all but one row of it. */
  ghost predicate Shrunk(before: map<string, Roll>, after: map<string, Roll>) {
    after == before || after == map[] || exists id :: after == before - {id}
  }

  lemma ShrunkSize(before: map<string, Roll>, after: map<string, Roll>)
    requires Shrunk(before, after)
    ensures |after| <= |before|
  {
    if after != before && after != map[] {
      var id :| after == before - {id};
      RemoveSize(before, id);
    }
  }

  /** Every other operation only removes rows, if it touches them at all. */
  lemma RemovalShrinks(cfg: Config, s: Store, op: Op, u: string)
    requires !op.DoSlashSave? && !op.DoModalSave? && !op.DoImport?
    ensures Shrunk(RowsOf(s.db, Key(Saved, u)), RowsOf(Apply(cfg, s, op).db, Key(Saved, u)))
  {
    var k := Key(Saved, u);
    if op.Unsave? && op.u == u {
      assert RowsOf(Apply(cfg, s, op).db, k) == RowsOf(s.db, k) - {op.id};
    }
  }

  lemma RemovalFiled(cfg: Config, s: Store, op: Op)
    requires !op.DoSlashSave? && !op.DoModalSave? && !op.DoImport?
    requires AllFiled(s)
    ensures AllFiled(Apply(cfg, s, op))
  {
    var t := Apply(cfg, s, op);
    forall u: string, id: string | id in RowsOf(t.db, Key(Saved, u))
      ensures Filed(id, RowsOf(t.db, Key(Saved, u))[id])
    {
      RemovalShrinks(cfg, s, op, u);
    }
  }

  lemma {:induction false} RunFiled(cfg: Config, ops: seq<Op>)
    ensures AllFiled(Run(cfg, ops))
  {
    if ops != [] {
      var n := |ops| - 1;
      RunFiled(cfg, ops[..n]);
      StepFiled(cfg, Run(cfg, ops[..n]), ops[n]);
    }
  }

  /** Databases that agree away from one key agree at every other key. */
  lemma SameRows(db: Db, db': Db, own: Key, k: Key)
    requires db - {own} == db' - {own} && k != own
    ensures RowsOf(db', k) == RowsOf(db, k)
  {
    assert k in db <==> k in db - {own};
    assert k in db' <==> k in db' - {own};
    assert k in db ==> db[k] == (db - {own})[k] == (db' - {own})[k] == db'[k];
  }

  lemma SetNamedFrame(s: Store, u: string, r: Roll)
    ensures SetNamedRoll(s, u, r).db - {Key(Saved, u)} == s.db - {Key(Saved, u)}
  {
  }

  lemma ModalSaveFrame(s: Store, u: string, r: Roll)
    ensures ModalSave(s, u, r).db - {Key(Saved, u)} == s.db - {Key(Saved, u)}
  {
    SetNamedFrame(s, u, Cleaned(r));
  }

  lemma OtherUsersRows(cfg: Config, s: Store, op: Op, u: string)
    requires (op.DoSlashSave? || op.DoModalSave? || op.DoImport?) && op.u != u
    ensures RowsOf(Apply(cfg, s, op).db, Key(Saved, u)) == RowsOf(s.db, Key(Saved, u))
  {
    var own := Key(Saved, op.u);
    if op.DoImport? {
      ImportAllOrNothing(cfg, s, op.u, op.rows);
    } else {
      ModalSaveFrame(s, op.u, op.r);
    }
    SameRows(s.db, Apply(cfg, s, op).db, own, Key(Saved, u));
  }

  /** How large one operation can leave a table of `size` rows. */
  function SizeBound(cfg: Config, size: nat, op: Op, u: string): nat {
    match op
    case DoModalSave(v, _) => if v == u then size + 1 else size
    case DoSlashSave(v, _) => if v == u && size < cfg.maxExpressions then size + 1 else size
    case DoImport(v, rows) => if v == u && ImportOk(cfg, rows) then cfg.maxExpressions else size
    case ClearExpressions(v) => if v == u then 0 else size
    case _ => size
  }

  lemma StepSize(cfg: Config, s: Store, op: Op, u: string)
    requires AllFiled(s)
    ensures |RowsOf(Apply(cfg, s, op).db, Key(Saved, u))| <= SizeBound(cfg, |RowsOf(s.db, Key(Saved, u))|, op, u)
  {
    if op.DoSlashSave? || op.DoModalSave? || op.DoImport? {
      if op.u != u {
        OtherUsersRows(cfg, s, op, u);
      } else if op.DoImport? {
        ImportAllOrNothing(cfg, s, u, op.rows);
        FileSize(Entries(op.rows));
      } else {
        ModalSaveFiled(s, u, op.r);
      }
    } else {
      RemovalShrinks(cfg, s, op, u);
      ShrunkSize(RowsOf(s.db, Key(Saved, u)), RowsOf(Apply(cfg, s, op).db, Key(Saved, u)));
    }
  }

  lemma CountedBound(cfg: Config, ops: seq<Op>, u: string, size: nat)
    requires ops != [] && size <= cfg.maxExpressions + ModalSaves(cfg, ops[..|ops| - 1], u)
    ensures SizeBound(cfg, size, ops[|ops| - 1], u) <= cfg.maxExpressions + ModalSaves(cfg, ops, u)
  {
  }

  /** The slash command respects the limit; only modal saves since the last clear
      or import can exceed it. */
  lemma {:induction false} RunSize(cfg: Config, ops: seq<Op>, u: string)
    ensures |RowsOf(Run(cfg, ops).db, Key(Saved, u))| <= cfg.maxExpressions + ModalSaves(cfg, ops, u)
  {
    if ops != [] {
      var n := |ops| - 1;
      RunSize(cfg, ops[..n], u);
      RunFiled(cfg, ops[..n]);
      var s := Run(cfg, ops[..n]);
      StepSize(cfg, s, ops[n], u);
      CountedBound(cfg, ops, u, |RowsOf(s.db, Key(Saved, u))|);
    }
  }

  lemma ModalSaveSize(s: Store, u: string, r: Roll)
    ensures var rows := RowsOf(s.db, Key(Saved, u));
            |RowsOf(ModalSave(s, u, r).db, Key(Saved, u))| ==
            |rows| + if RowOk(r) && ID(Cleaned(r)) !in rows then 1 else 0
  {
    var rows, clean := RowsOf(s.db, Key(Saved, u)), Cleaned(r);
    if RowOk(r) {
      SetNamedRows(s, u, clean);
      UpdateSize(rows, ID(clean), clean);
      if ID(clean) in rows {
        assert rows[ID(clean) := clean].Keys == rows.Keys;
      }
    }
  }

  /** A modal save keeps a table within the limit exactly when there is room, the
      roll is refused, or its ID is taken. */
  lemma ModalSaveFitsExactly(cfg: Config, s: Store, u: string, r: Roll)
    requires |RowsOf(s.db, Key(Saved, u))| <= cfg.maxExpressions
    ensures var rows := RowsOf(s.db, Key(Saved, u));
            |RowsOf(ModalSave(s, u, r).db, Key(Saved, u))| <= cfg.maxExpressions <==>
            |rows| < cfg.maxExpressions || !RowOk(r) || ID(Cleaned(r)) in rows
    ensures |RowsOf(SlashSave(cfg, s, u, r).db, Key(Saved, u))| <= cfg.maxExpressions
  {
    ModalSaveSize(s, u, r);
  }

  /** At a full table a modal save of a new roll goes one over the limit, where the
      slash command refuses. */
  lemma ModalSaveExceedsLimit(cfg: Config, s: Store, u: string, r: Roll)
    requires RowOk(r) && ID(Cleaned(r)) !in RowsOf(s.db, Key(Saved, u))
    requires |RowsOf(s.db, Key(Saved, u))| == cfg.maxExpressions
    ensures |RowsOf(ModalSave(s, u, r).db, Key(Saved, u))| == cfg.maxExpressions + 1
    ensures SlashSave(cfg, s, u, r) == s
  {
    ModalSaveSize(s, u, r);
  }

  // ---------------------------------------------------------------- a run past the limit

  /** The rolls "0", "1", "2", and so on, without names and labels. */
  function Numbered(i: nat): Roll {
    Roll(Digits(i), "", "")
  }

  /** Saving the first `n` of them by modal. */
  function ModalRun(u: string, n: nat): seq<Op> {
    if n == 0 then [] else ModalRun(u, n - 1) + [DoModalSave(u, Numbered(n - 1))]
  }

  lemma {:induction false} DigitsGrow(i: nat, n: nat)
    requires i <= n
    ensures |Digits(i)| <= |Digits(n)|
  {
    if i >= 10 {
      DigitsGrow(i / 10, n / 10);
    }
  }

  lemma DigitsTrimmed(d: string)
    requires AllDigits(d)
    ensures Trimmed(d)
  {
  }

  lemma NumberedIsOk(i: nat)
    requires |Digits(i)| <= 100
    ensures RowOk(Numbered(i)) && Cleaned(Numbered(i)) == Numbered(i)
  {
    DigitsTrimmed(Digits(i));
    TrimIdentity(Digits(i));
    TrimIdentity("");
  }

  lemma NumberedIdsDiffer(i: nat, j: nat)
    requires ID(Numbered(i)) == ID(Numbered(j))
    ensures i == j
  {
    assert forall k | 0 <= k < |Digits(i)| :: IsDigit(Digits(i)[k]);
    assert forall k | 0 <= k < |Digits(j)| :: IsDigit(Digits(j)[k]);
    SerializeInjective(Numbered(i), Numbered(j));
    NumberOfDigits(i);
    NumberOfDigits(j);
  }

  /** The table of the first `n` of them. */
  function NumberedRows(n: nat): map<string, Roll> {
    if n == 0 then map[] else NumberedRows(n - 1)[ID(Numbered(n - 1)) := Numbered(n - 1)]
  }

  lemma {:induction false} NumberedKeys(n: nat, id: string) returns (i: nat)
    requires id in NumberedRows(n)
    ensures i < n && id == ID(Numbered(i))
  {
    if id == ID(Numbered(n - 1)) {
      i := n - 1;
    } else {
      i := NumberedKeys(n - 1, id);
    }
  }

  lemma {:induction false} NumberedSize(n: nat)
    ensures |NumberedRows(n)| == n
  {
    if n > 0 {
      var id := ID(Numbered(n - 1));
      NumberedSize(n - 1);
      if id in NumberedRows(n - 1) {
        var i := NumberedKeys(n - 1, id);
        NumberedIdsDiffer(i, n - 1);
      }
      UpdateSize(NumberedRows(n - 1), id, Numbered(n - 1));
    }
  }

  lemma {:induction false} ModalRunRows(cfg: Config, u: string, n: nat)
    requires |Digits(n)| <= 100
    ensures Legal(cfg, ModalRun(u, n)) && RowsOf(Run(cfg, ModalRun(u, n)).db, Key(Saved, u)) == NumberedRows(n)
  {
    if n > 0 {
      var ops, prev, r := ModalRun(u, n), ModalRun(u, n - 1), Numbered(n - 1);
      DigitsGrow(n - 1, n);
      ModalRunRows(cfg, u, n - 1);
      assert ops[..|ops| - 1] == prev;
      NumberedIsOk(n - 1);
      SetNamedRows(Run(cfg, prev), u, r);
    }
  }

  /** However low the limit, a run of modal saves reaches any size, as far as the
      numbers fit an expression. */
  lemma ModalRunIsUnlimited(cfg: Config, u: string, n: nat)
    requires |Digits(n)| <= 100
    ensures Legal(cfg, ModalRun(u, n)) && |RowsOf(Run(cfg, ModalRun(u, n)).db, Key(Saved, u))| == n
  {
    ModalRunRows(cfg, u, n);
    NumberedSize(n);
  }
}
