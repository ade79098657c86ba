/**
  The history of one user inside a run that mixes every operation of every user.
 */
module StoredHistory {
  import opened Text
  import opened Rolls
  import opened StoreSpec
  import opened Coherence
  import opened SavedExpressions
  import H = History

  // ---------------------------------------------------------------- users do not interfere

  function UserOf(op: Op): string {
    match op
    case Read(k, _, _) => k.user
    case Evict(k) => k.user
    case Expire(k) => k.user
    case _ => op.u
  }

  /** The keys one operation may push out of the bounded cache. */
  function Gone(op: Op): set<Key> {
    if op.Read? || op.DoCacheRoll? then op.gone else {}
  }

  /** What another user has in Redis is unchanged, and so is what the cache holds
      for them, unless the bounded cache pushed it out. */
  ghost predicate Untouched(s: Store, t: Store, u: string, gone: set<Key>) {
    forall k: Key | k.user != u ::
      && (k in s.db <==> k in t.db)
      && (k in s.db ==> s.db[k] == t.db[k])
      && (k in t.lru ==> k in s.lru && s.lru[k] == t.lru[k])
      && (k in s.lru && k !in gone ==> k in t.lru)
      && (k in s.dirty <==> k in t.dirty)
  }

  lemma SaveAllUntouched(s: Store, u: string, rows: seq<Roll>)
    ensures Untouched(s, SaveAll(s, u, rows), u, {})
  {
    var t, own := SaveAll(s, u, rows), Key(Saved, u);
    SaveAllFrame(s, u, rows);
    forall k: Key | k.user != u
      ensures (k in s.db <==> k in t.db) && (k in s.db ==> s.db[k] == t.db[k])
      ensures (k in s.lru <==> k in t.lru) && (k in s.lru ==> s.lru[k] == t.lru[k])
      ensures k in s.dirty <==> k in t.dirty
    {
      assert k in s.db <==> k in s.db - {own};
      assert k in t.db <==> k in t.db - {own};
      assert k in s.db ==> s.db[k] == (s.db - {own})[k] == (t.db - {own})[k];
      assert k in s.lru <==> k in s.lru - {own};
      assert k in t.lru <==> k in t.lru - {own};
      assert k in s.lru ==> s.lru[k] == (s.lru - {own})[k] == (t.lru - {own})[k];
      assert k in s.dirty <==> k in s.dirty - {own};
      assert k in t.dirty <==> k in t.dirty - {own};
    }
  }

  lemma RefreshUntouched(s: Store, k: Key, v: Value)
    ensures Untouched(s, Refresh(s, k, v), k.user, {})
  {
  }

  lemma OverwriteUntouched(s: Store, k: Key, v: Value)
    ensures Untouched(s, Overwrite(s, k, v), k.user, {})
  {
  }

  lemma ReadUntouched(s: Store, k: Key, c: Cached, gone: set<Key>)
    ensures Untouched(s, ReadThrough(s, k, c, gone), k.user, gone)
  {
  }

  lemma UntouchedTransitive(s: Store, t: Store, w: Store, u: string, gone: set<Key>)
    requires Untouched(s, t, u, gone) && Untouched(t, w, u, {})
    ensures Untouched(s, w, u, gone)
  {
  }

  lemma SetNamedUntouched(s: Store, u: string, r: Roll)
    ensures Untouched(s, SetNamedRoll(s, u, r), u, {})
  {
    RefreshUntouched(s, Key(Saved, u), Table(RowsOf(s.db, Key(Saved, u))[ID(r) := r]));
  }

  lemma CacheRollUntouched(cfg: Config, s: Store, u: string, r: Roll, now: int, c: Cached, gone: set<Key>)
    ensures Untouched(s, CacheRoll(cfg, s, u, r, now, c, gone), u, gone)
  {
    var prefs, recent := Key(Preferences, u), Key(Recent, u);
    var t := ReadThrough(s, prefs, c, gone);
    var v := Ranked(H.Recorded(ZOf(s.db, recent), H.Event(Serialize(r), now), cfg.maxHistory, cfg.recentTtl));
    ReadUntouched(s, prefs, c, gone);
    RefreshUntouched(t, recent, v);
    UntouchedTransitive(s, t, Refresh(t, recent, v), u, gone);
  }

  lemma DeleteUntouched(s: Store, k: Key)
    ensures Untouched(s, Delete(s, k), k.user, {})
  {
  }

  lemma ModalSaveUntouched(s: Store, u: string, r: Roll)
    ensures Untouched(s, ModalSave(s, u, r), u, {})
  {
    SetNamedUntouched(s, u, Cleaned(r));
  }

  lemma ImportUntouched(cfg: Config, s: Store, u: string, rows: seq<Roll>)
    ensures Untouched(s, Import(cfg, s, u, rows), u, {})
  {
    var t := Delete(s, Key(Saved, u));
    DeleteUntouched(s, Key(Saved, u));
    SaveAllUntouched(t, u, rows);
    UntouchedTransitive(s, t, SaveAll(t, u, rows), u, {});
  }

  lemma DisableUntouched(s: Store, u: string)
    ensures Untouched(s, OptOut(s, u), u, {})
  {
    var v := Names(NamesOf(s.db, Key(Preferences, u)) + {NO_RECENT});
    var t := Overwrite(s, Key(Preferences, u), v);
    OverwriteUntouched(s, Key(Preferences, u), v);
    DeleteUntouched(t, Key(Recent, u));
    UntouchedTransitive(s, t, Delete(t, Key(Recent, u)), u, {});
  }

  /** Operations that only write Redis. */
  lemma WritesUntouched(cfg: Config, s: Store, op: Op)
    requires op.Unsave? || op.SetPreference? || op.UnsetPreference?
    ensures Untouched(s, Apply(cfg, s, op), op.u, {})
  {
    match op
    case SetPreference(u, name) =>
      OverwriteUntouched(s, Key(Preferences, u), Names(NamesOf(s.db, Key(Preferences, u)) + {name}));
    case UnsetPreference(u, name) =>
      OverwriteUntouched(s, Key(Preferences, u), Names(NamesOf(s.db, Key(Preferences, u)) - {name}));
    case Unsave(u, id) => OverwriteUntouched(s, Key(Saved, u), Table(RowsOf(s.db, Key(Saved, u)) - {id}));
  }

  lemma DeletesUntouched(cfg: Config, s: Store, op: Op)
    requires op.ClearExpressions? || op.ClearRecent? || op.Expire? || op.DisableRecent? || op.Evict?
    ensures Untouched(s, Apply(cfg, s, op), UserOf(op), {})
  {
    match op
    case DisableRecent(u) => DisableUntouched(s, u);
    case ClearExpressions(u) => DeleteUntouched(s, Key(Saved, u));
    case ClearRecent(u) => DeleteUntouched(s, Key(Recent, u));
    case Expire(k) => DeleteUntouched(s, k);
    case Evict(k) =>
  }

  lemma SavesUntouched(cfg: Config, s: Store, op: Op)
    requires op.DoImport? || op.DoSlashSave? || op.DoModalSave?
    ensures Untouched(s, Apply(cfg, s, op), op.u, {})
  {
    match op
    case DoImport(u, rows) => ImportUntouched(cfg, s, u, rows);
    case DoSlashSave(u, r) => ModalSaveUntouched(s, u, r);
    case DoModalSave(u, r) => ModalSaveUntouched(s, u, r);
  }

  /** No operation for one user changes another user's data. */
  lemma UsersAreIsolated(cfg: Config, s: Store, op: Op)
    ensures Untouched(s, Apply(cfg, s, op), UserOf(op), Gone(op))
  {
    if op.Read? {
      ReadUntouched(s, op.k, op.c, op.gone);
    } else if op.DoCacheRoll? {
      CacheRollUntouched(cfg, s, op.u, op.r, op.now, op.c, op.gone);
    } else if op.Unsave? || op.SetPreference? || op.UnsetPreference? {
      WritesUntouched(cfg, s, op);
    } else if op.DoImport? || op.DoSlashSave? || op.DoModalSave? {
      SavesUntouched(cfg, s, op);
    } else {
      DeletesUntouched(cfg, s, op);
    }
  }

  // ---------------------------------------------------------------- the rolls that were recorded

  /** A roll is recorded when it fits Discord's limits and the user, as far as the
      cache knows, has not opted out. */
  predicate Accepted(s: Store, op: Op) {
    op.DoCacheRoll? && OkForAutocomplete(op.r) && !OptedOut(Seen(s, Key(Preferences, op.u), op.c))
  }

  /** The user's recorded rolls since their history was last dropped. */
  function Log(cfg: Config, ops: seq<Op>, u: string): seq<H.Event> {
    if ops == [] then []
    else
      var before, op := Log(cfg, ops[..|ops| - 1], u), ops[|ops| - 1];
      if UserOf(op) != u then before
      else if Accepted(Run(cfg, ops[..|ops| - 1]), op) then before + [H.Event(Serialize(op.r), op.now)]
      else if op.ClearRecent? || op.DisableRecent? || op == Expire(Key(Recent, u)) then []
      else before
  }

  lemma CacheRollHistory(cfg: Config, s: Store, op: Op)
    requires op.DoCacheRoll?
    ensures var k := Key(Recent, op.u);
            ZOf(Apply(cfg, s, op).db, k) ==
            if Accepted(s, op) then
              H.Recorded(ZOf(s.db, k), H.Event(Serialize(op.r), op.now), cfg.maxHistory, cfg.recentTtl)
            else ZOf(s.db, k)
  {
    var k := Key(Recent, op.u);
    var t := ReadThrough(s, Key(Preferences, op.u), op.c, op.gone);
    PutRanked(t.db, k, H.Recorded(ZOf(s.db, k), H.Event(Serialize(op.r), op.now), cfg.maxHistory, cfg.recentTtl));
  }

  lemma PutRanked(db: Db, k: Key, z: H.ZSet)
    ensures ZOf(Put(db, k, Ranked(z)), k) == z
  {
  }

  lemma OverwriteHistory(s: Store, k: Key, v: Value, u: string)
    requires !k.family.Recent?
    ensures ZOf(Overwrite(s, k, v).db, Key(Recent, u)) == ZOf(s.db, Key(Recent, u))
  {
  }

  lemma DeleteHistory(s: Store, k: Key, u: string)
    ensures ZOf(Delete(s, k).db, Key(Recent, u)) == if k == Key(Recent, u) then [] else ZOf(s.db, Key(Recent, u))
  {
  }

  lemma RemovalHistory(cfg: Config, s: Store, op: Op, u: string)
    requires !op.DoCacheRoll? && !op.DoImport? && !op.DoSlashSave? && !op.DoModalSave? && UserOf(op) == u
    ensures var k := Key(Recent, u);
            ZOf(Apply(cfg, s, op).db, k) ==
            if op.ClearRecent? || op.DisableRecent? || op == Expire(k) then [] else ZOf(s.db, k)
  {
    match op
    case Unsave(_, id) => OverwriteHistory(s, Key(Saved, u), Table(RowsOf(s.db, Key(Saved, u)) - {id}), u);
    case SetPreference(_, name) =>
      OverwriteHistory(s, Key(Preferences, u), Names(NamesOf(s.db, Key(Preferences, u)) + {name}), u);
    case UnsetPreference(_, name) =>
      OverwriteHistory(s, Key(Preferences, u), Names(NamesOf(s.db, Key(Preferences, u)) - {name}), u);
    case DisableRecent(_) => DeleteHistory(AddPreference(s, u, NO_RECENT), Key(Recent, u), u);
    case ClearExpressions(_) => DeleteHistory(s, Key(Saved, u), u);
    case ClearRecent(_) => DeleteHistory(s, Key(Recent, u), u);
    case Expire(k) => DeleteHistory(s, k, u);
    case Read(_, _, _) =>
    case Evict(_) =>
  }

  /** How one operation moves a user's sorted set. */
  lemma StepHistory(cfg: Config, s: Store, op: Op, u: string)
    ensures var k := Key(Recent, u);
            ZOf(Apply(cfg, s, op).db, k) ==
            if UserOf(op) != u then ZOf(s.db, k)
            else if Accepted(s, op) then
              H.Recorded(ZOf(s.db, k), H.Event(Serialize(op.r), op.now), cfg.maxHistory, cfg.recentTtl)
            else if op.ClearRecent? || op.DisableRecent? || op == Expire(k) then []
            else ZOf(s.db, k)
  {
    if UserOf(op) != u {
      UsersAreIsolated(cfg, s, op);
    } else {
      match op
      case DoCacheRoll(_, _, _, _, _) => CacheRollHistory(cfg, s, op);
      case DoImport(_, rows) => ImportAllOrNothing(cfg, s, u, rows); SameHistory(s, Import(cfg, s, u, rows), u);
      case DoSlashSave(_, r) => SavedHistory(s, u, r);
      case DoModalSave(_, r) => SavedHistory(s, u, r);
      case _ => RemovalHistory(cfg, s, op, u);
    }
  }

  lemma SavedHistory(s: Store, u: string, r: Roll)
    ensures ZOf(ModalSave(s, u, r).db, Key(Recent, u)) == ZOf(s.db, Key(Recent, u))
  {
    SetNamedFrame(s, u, Cleaned(r));
    SameHistory(s, SetNamedRoll(s, u, Cleaned(r)), u);
  }

  lemma SameHistory(s: Store, t: Store, u: string)
    requires s.db - {Key(Saved, u)} == t.db - {Key(Saved, u)}
    ensures ZOf(t.db, Key(Recent, u)) == ZOf(s.db, Key(Recent, u))
  {
    var k, own := Key(Recent, u), Key(Saved, u);
    assert k in s.db <==> k in s.db - {own};
    assert k in t.db <==> k in t.db - {own};
    assert k in s.db ==> s.db[k] == (s.db - {own})[k] == (t.db - {own})[k] == t.db[k];
  }

  /** In every run, a user's sorted set is the recording of their own log. */
  lemma {:induction false} HistoryIsRecording(cfg: Config, ops: seq<Op>, u: string)
    ensures ZOf(Run(cfg, ops).db, Key(Recent, u)) == H.Recording(Log(cfg, ops, u), cfg.maxHistory, cfg.recentTtl)
  {
    if ops != [] {
      var n := |ops| - 1;
      HistoryIsRecording(cfg, ops[..n], u);
      StepHistory(cfg, Run(cfg, ops[..n]), ops[n], u);
      LogStep(cfg, ops, u);
    }
  }

  lemma LogStep(cfg: Config, ops: seq<Op>, u: string)
    requires ops != []
    ensures var n := |ops| - 1;
            var op, before := ops[n], Log(cfg, ops[..n], u);
            H.Recording(Log(cfg, ops, u), cfg.maxHistory, cfg.recentTtl) ==
            if UserOf(op) != u then H.Recording(before, cfg.maxHistory, cfg.recentTtl)
            else if Accepted(Run(cfg, ops[..n]), op) then
              H.Recorded(H.Recording(before, cfg.maxHistory, cfg.recentTtl), H.Event(Serialize(op.r), op.now),
                         cfg.maxHistory, cfg.recentTtl)
            else if op.ClearRecent? || op.DisableRecent? || op == Expire(Key(Recent, u)) then []
            else H.Recording(before, cfg.maxHistory, cfg.recentTtl)
  {
    var before, op := Log(cfg, ops[..|ops| - 1], u), ops[|ops| - 1];
    if op.DoCacheRoll? {
      var e := H.Event(Serialize(op.r), op.now);
      assert (before + [e])[..|before|] == before;
    }
  }

  /** What `CachedSerials` returns at the end of any run: for a clean key and a
      strictly increasing clock, a prefix of the user's distinct recorded serials,
      most recent first, cut to the history limit.  It is all of them exactly
      when the age cutoff spares them all. */
  lemma CachedSerialsAreHistory(cfg: Config, ops: seq<Op>, u: string, c: Cached)
    requires var k := Key(Recent, u);
             && Legal(cfg, ops) && k !in Run(cfg, ops).dirty
             && Represents(c, Run(cfg, ops).db, k)
    requires H.Ticking(Log(cfg, ops, u)) && Log(cfg, ops, u) != []
    ensures var log := Log(cfg, ops, u);
            var got := Seen(Run(cfg, ops), Key(Recent, u), c);
            var list := H.Truncate(H.Distinct(log), cfg.maxHistory);
            && got.Strings? && got.items <= H.MembersOf(list)
            && (got.items == H.MembersOf(list) <==>
                forall x | x in list :: x.score > H.Cutoff(log[|log| - 1].at, cfg.recentTtl))
  {
    RunCoherent(cfg, ops);
    SeenIsCurrent(Run(cfg, ops), Key(Recent, u), c);
    HistoryIsRecording(cfg, ops, u);
    H.SerialsArePrefix(Log(cfg, ops, u), cfg.maxHistory, cfg.recentTtl);
  }

  lemma SeenIsCurrent(s: Store, k: Key, c: Cached)
    requires Coherent(s) && k !in s.dirty && Represents(c, s.db, k)
    ensures Represents(Seen(s, k, c), s.db, k)
    ensures k.family.Recent? ==> Seen(s, k, c) == Strings(H.ZRevRangeAll(ZOf(s.db, k)))
  {
  }

  // ---------------------------------------------------------------- opting out

  /** While a user's preferences are clean in the cache, a roll is recorded exactly
      when it fits Discord's limits and Redis does not list the opt-out. */
  lemma CleanPreferenceIsRespected(cfg: Config, ops: seq<Op>, op: Op)
    requires Legal(cfg, ops) && op.DoCacheRoll? && Allowed(Run(cfg, ops), op)
    requires Key(Preferences, op.u) !in Run(cfg, ops).dirty
    ensures Accepted(Run(cfg, ops), op) <==>
            OkForAutocomplete(op.r) && NO_RECENT !in NamesOf(Run(cfg, ops).db, Key(Preferences, op.u))
  {
    if OkForAutocomplete(op.r) {
      RunCoherent(cfg, ops);
      SeenIsCurrent(Run(cfg, ops), Key(Preferences, op.u), op.c);
    }
  }

  /** The same in numbers, and what it does to the log: a roll enters it exactly when
      it fits Discord's two limits and Redis does not list the opt-out. */
  lemma LogGrowsExactly(cfg: Config, ops: seq<Op>, op: Op)
    requires Legal(cfg, ops) && op.DoCacheRoll? && Allowed(Run(cfg, ops), op)
    requires Key(Preferences, op.u) !in Run(cfg, ops).dirty
    ensures Legal(cfg, ops + [op])
    ensures Log(cfg, ops + [op], op.u) ==
            if FitsDiscord(op.r) && NO_RECENT !in NamesOf(Run(cfg, ops).db, Key(Preferences, op.u))
            then Log(cfg, ops, op.u) + [H.Event(Serialize(op.r), op.now)]
            else Log(cfg, ops, op.u)
  {
    assert (ops + [op])[..|ops|] == ops;
    OkExactly(op.r);
    CleanPreferenceIsRespected(cfg, ops, op);
  }

  /** Every event of a log is an accepted roll of the run. */
  lemma {:induction false} LogIsOfRolls(cfg: Config, ops: seq<Op>, u: string, e: H.Event) returns (j: nat)
    requires e in Log(cfg, ops, u)
    ensures j < |ops| && Accepted(Run(cfg, ops[..j]), ops[j])
    ensures ops[j].u == u && e == H.Event(Serialize(ops[j].r), ops[j].now)
  {
    var n := |ops| - 1;
    if e in Log(cfg, ops[..n], u) {
      j := LogIsOfRolls(cfg, ops[..n], u, e);
      assert ops[..n][..j] == ops[..j];
    } else {
      j := n;
    }
  }

  /** The members of a recording are serials of its events. */
  lemma {:induction false} RecordingMembers(events: seq<H.Event>, max: nat, ttl: int, x: H.Entry)
    returns (e: H.Event)
    requires x in H.Recording(events, max, ttl)
    ensures e in events && e.serial == x.member
  {
    var n := |events| - 1;
    RecordedMembers(H.Recording(events[..n], max, ttl), events[n], max, ttl);
    if x.member == events[n].serial {
      e := events[n];
    } else {
      e := RecordingMembers(events[..n], max, ttl, x);
    }
  }

  lemma RecordedWasRolled(cfg: Config, ops: seq<Op>, u: string, i: nat) returns (j: nat)
    requires i < |H.ZRevRangeAll(H.Recording(Log(cfg, ops, u), cfg.maxHistory, cfg.recentTtl))|
    ensures j < |ops| && Accepted(Run(cfg, ops[..j]), ops[j]) && ops[j].u == u
    ensures H.ZRevRangeAll(H.Recording(Log(cfg, ops, u), cfg.maxHistory, cfg.recentTtl))[i] == Serialize(ops[j].r)
  {
    var log := Log(cfg, ops, u);
    var x := EntryAt(H.Recording(log, cfg.maxHistory, cfg.recentTtl), i);
    var e := RecordingMembers(log, cfg.maxHistory, cfg.recentTtl, x);
    j := LogIsOfRolls(cfg, ops, u, e);
  }

  /** Everything a user's history reader returns, stale or not, is the serial of a
      roll of theirs that was accepted in the run. */
  lemma SerialWasRolled(cfg: Config, ops: seq<Op>, u: string, c: Cached, i: nat) returns (j: nat)
    requires Legal(cfg, ops) && Represents(c, Run(cfg, ops).db, Key(Recent, u))
    requires i < |ReadItems(Seen(Run(cfg, ops), Key(Recent, u), c))|
    ensures j < |ops| && Accepted(Run(cfg, ops[..j]), ops[j]) && ops[j].u == u
    ensures ReadItems(Seen(Run(cfg, ops), Key(Recent, u), c))[i] == Serialize(ops[j].r)
  {
    var k := SerialsWereHistory(cfg, ops, u, c);
    j := RecordedWasRolled(cfg, ops[..k], u, i);
    PrefixOf(ops, k, j);
  }

  lemma PrefixOf(ops: seq<Op>, k: nat, j: nat)
    requires j < k <= |ops|
    ensures ops[..k][..j] == ops[..j] && ops[..k][j] == ops[j]
  {
  }

  lemma EntryAt(z: H.ZSet, i: nat) returns (x: H.Entry)
    requires i < |H.ZRevRangeAll(z)|
    ensures x in z && H.ZRevRangeAll(z)[i] == x.member
  {
    x := z[|z| - 1 - i];
  }

  /** Opting out stops the next recording exactly when no older preferences are cached. */
  lemma OptOutTakesEffectExactly(cfg: Config, s: Store, op: Op)
    requires op.DoCacheRoll? && OkForAutocomplete(op.r)
    requires Allowed(Apply(cfg, s, DisableRecent(op.u)), op)
    ensures var k := Key(Preferences, op.u);
            !Accepted(Apply(cfg, s, DisableRecent(op.u)), op) <==> k !in s.lru || OptedOut(s.lru[k])
  {
    var k, t := Key(Preferences, op.u), Apply(cfg, s, DisableRecent(op.u));
    assert t.lru == s.lru;
    assert NO_RECENT in NamesOf(t.db, k);
  }

  // ---------------------------------------------------------------- what a serial decodes to

  /** A serial of a roll within Discord's limits decodes to a short expression. */
  ghost predicate ShortSerial(serial: string) {
    |Decoded(EMPTY, serial).expression| <= 100
  }

  lemma SerialIsShort(r: Roll)
    requires OkForAutocomplete(r)
    ensures ShortSerial(Serialize(r))
  {
    FirstPartBound("", Serialize(r), |r.expression|);
    assert Serialize(r)[|r.expression|] == DELIM;
  }

  lemma {:induction false} FirstPartBound(field: string, s: string, n: nat)
    requires DELIM !in field && n < |s| && s[n] == DELIM
    ensures |SplitFrom(field, s)[0]| <= |field| + n
    decreases |s|
  {
    if s[0] != DELIM {
      FirstPartBound(field + [s[0]], s[1..], n - 1);
    }
  }

  lemma {:induction false} AfterMembers(z: H.ZSet, c: int)
    ensures forall x :: x in H.ZRemRangeByScore(z, c) ==> x in z
  {
    if z != [] {
      AfterMembers(z[1..], c);
    }
  }

  lemma RecordedMembers(z: H.ZSet, ev: H.Event, max: nat, ttl: int)
    ensures forall x :: x in H.Recorded(z, ev, max, ttl) ==> x in z || x.member == ev.serial
  {
    var e := H.Entry(ev.serial, H.Score(ev.at));
    H.WithoutMembers(z, ev.serial);
    H.InsertMembers(H.Without(z, ev.serial), e);
    AfterMembers(H.ZRemRangeByRank(H.ZAdd(z, e), 0, -1 - max), H.Cutoff(ev.at, ttl));
  }

  /** Everything a history ever holds decodes to an expression Discord accepts. */
  lemma {:induction false} HistoryIsShort(cfg: Config, ops: seq<Op>, u: string)
    ensures forall x | x in ZOf(Run(cfg, ops).db, Key(Recent, u)) :: ShortSerial(x.member)
  {
    if ops != [] {
      var n := |ops| - 1;
      var s, op := Run(cfg, ops[..n]), ops[n];
      HistoryIsShort(cfg, ops[..n], u);
      StepHistory(cfg, s, op, u);
      if Accepted(s, op) && UserOf(op) == u {
        RecordedMembers(ZOf(s.db, Key(Recent, u)), H.Event(Serialize(op.r), op.now), cfg.maxHistory, cfg.recentTtl);
        SerialIsShort(op.r);
      }
    }
  }

  // ---------------------------------------------------------------- what the readers return

  function ReadItems(c: Cached): seq<string> {
    if c.Strings? then c.items else []
  }

  function ReadRows(c: Cached): map<string, Roll> {
    if c.Rows? then c.rows else map[]
  }

  /** What is cached after an operation was cached before it or is what Redis held
      at the time. */
  lemma StepCached(cfg: Config, s: Store, op: Op)
    requires Allowed(s, op)
    ensures var t := Apply(cfg, s, op);
            forall k | k in t.lru :: (k in s.lru && t.lru[k] == s.lru[k]) || Represents(t.lru[k], s.db, k)
  {
    match op
    case DoImport(u, rows) => SaveAllCached(Delete(s, Key(Saved, u)), u, rows);
    case DoSlashSave(u, r) => SetNamedCached(s, u, Cleaned(r));
    case DoModalSave(u, r) => SetNamedCached(s, u, Cleaned(r));
    case DoCacheRoll(u, r, now, c, gone) => CacheRollCached(cfg, s, op);
    case _ =>
  }

  lemma CacheRollCached(cfg: Config, s: Store, op: Op)
    requires op.DoCacheRoll? && Allowed(s, op)
    ensures var t := Apply(cfg, s, op);
            forall k | k in t.lru :: (k in s.lru && t.lru[k] == s.lru[k]) || Represents(t.lru[k], s.db, k)
  {
  }

  lemma SetNamedCached(s: Store, u: string, r: Roll)
    ensures forall k | k in SetNamedRoll(s, u, r).lru :: k in s.lru && SetNamedRoll(s, u, r).lru[k] == s.lru[k]
  {
  }

  lemma {:induction false} SaveAllCached(s: Store, u: string, rows: seq<Roll>)
    ensures forall k | k in SaveAll(s, u, rows).lru :: k in s.lru && SaveAll(s, u, rows).lru[k] == s.lru[k]
  {
    if rows != [] {
      var n := |rows| - 1;
      SaveAllCached(s, u, rows[..n]);
      SetNamedCached(SaveAll(s, u, rows[..n]), u, Cleaned(rows[n]));
    }
  }

  /** In any sequential run, a cached value, stale or not, is what Redis held for its
      key after some part of the run. */
  lemma {:induction false} CachedWasHeld(cfg: Config, ops: seq<Op>, k: Key) returns (i: nat)
    requires Legal(cfg, ops) && k in Run(cfg, ops).lru
    ensures i <= |ops| && Represents(Run(cfg, ops).lru[k], Run(cfg, ops[..i]).db, k)
  {
    var n := |ops| - 1;
    var s, t := Run(cfg, ops[..n]), Run(cfg, ops);
    StepCached(cfg, s, ops[n]);
    if Represents(t.lru[k], s.db, k) {
      i := n;
    } else {
      i := CachedWasHeld(cfg, ops[..n], k);
      assert ops[..n][..i] == ops[..i];
    }
  }

  /** What `CachedSerials` returns, dirty key or not: the recording of what the user's
      log was after some part of the run, and after all of it for a clean key. */
  lemma SerialsWereHistory(cfg: Config, ops: seq<Op>, u: string, c: Cached) returns (i: nat)
    requires Legal(cfg, ops) && Represents(c, Run(cfg, ops).db, Key(Recent, u))
    ensures i <= |ops|
    ensures Seen(Run(cfg, ops), Key(Recent, u), c) ==
            Strings(H.ZRevRangeAll(H.Recording(Log(cfg, ops[..i], u), cfg.maxHistory, cfg.recentTtl)))
    ensures Key(Recent, u) !in Run(cfg, ops).dirty ==> i == |ops|
  {
    var k, s := Key(Recent, u), Run(cfg, ops);
    RunCoherent(cfg, ops);
    i := |ops|;
    if k in s.lru && k in s.dirty {
      i := CachedWasHeld(cfg, ops, k);
    }
    assert ops[..|ops|] == ops;
    HistoryIsRecording(cfg, ops[..i], u);
  }

  /** A value whose serials are short and whose rolls are properly filed. */
  ghost predicate Fit(k: Key, c: Cached) {
    && (k.family.Recent? ==> forall x | x in ReadItems(c) :: ShortSerial(x))
    && (k.family.Saved? ==> forall id | id in ReadRows(c) :: Filed(id, ReadRows(c)[id]))
  }

  lemma CurrentFits(cfg: Config, ops: seq<Op>, k: Key, c: Cached)
    requires Represents(c, Run(cfg, ops).db, k)
    ensures Fit(k, c)
  {
    var db := Run(cfg, ops).db;
    HistoryIsShort(cfg, ops, k.user);
    RunFiled(cfg, ops);
    if k.family.Recent? {
      var z := ZOf(db, k);
      assert k == Key(Recent, k.user);
      forall x | x in c.items
        ensures ShortSerial(x)
      {
        var i :| 0 <= i < |c.items| && c.items[i] == x;
        assert x == z[|z| - 1 - i].member;
      }
    } else if k.family.Saved? {
      assert k == Key(Saved, k.user);
    }
  }

  /** Every value any reader returns, even from a stale entry, is fit. */
  lemma {:induction false} CachedFit(cfg: Config, ops: seq<Op>)
    requires Legal(cfg, ops)
    ensures forall k | k in Run(cfg, ops).lru :: Fit(k, Run(cfg, ops).lru[k])
  {
    if ops != [] {
      var n := |ops| - 1;
      var s, t := Run(cfg, ops[..n]), Run(cfg, ops);
      CachedFit(cfg, ops[..n]);
      StepCached(cfg, s, ops[n]);
      forall k | k in t.lru
        ensures Fit(k, t.lru[k])
      {
        if !(k in s.lru && t.lru[k] == s.lru[k]) {
          CurrentFits(cfg, ops[..n], k, t.lru[k]);
        }
      }
    }
  }

  lemma ReadsFit(cfg: Config, ops: seq<Op>, u: string, recent: Cached, rows: Cached)
    requires Legal(cfg, ops)
    requires Represents(recent, Run(cfg, ops).db, Key(Recent, u)) && Represents(rows, Run(cfg, ops).db, Key(Saved, u))
    ensures forall x | x in ReadItems(Seen(Run(cfg, ops), Key(Recent, u), recent)) :: ShortSerial(x)
    ensures forall r | r in ReadRows(Seen(Run(cfg, ops), Key(Saved, u), rows)).Values :: OkForAutocomplete(r)
  {
    CachedFit(cfg, ops);
    CurrentFits(cfg, ops, Key(Recent, u), recent);
    CurrentFits(cfg, ops, Key(Saved, u), rows);
    assert Fit(Key(Recent, u), Seen(Run(cfg, ops), Key(Recent, u), recent));
    var table := ReadRows(Seen(Run(cfg, ops), Key(Saved, u), rows));
    forall r | r in table.Values
      ensures OkForAutocomplete(r)
    {
      var id :| id in table && table[id] == r;
      assert Filed(id, table[id]);
    }
  }
}
