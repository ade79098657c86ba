/**
  The per-user store as a state machine: Redis behind a bounded in-memory cache
  whose evictions are the environment's choice.

  The steps are whole operations, run one at a time.  `dirty` collects the keys
  that an operation changed in Redis without removing them from the cache.
 */
module StoreSpec {
  import opened Text
  import opened Rolls
  import H = History

  // ---------------------------------------------------------------- keys

  datatype Family = Recent | Saved | Preferences

  datatype Key = Key(family: Family, user: string)

  /** The Redis key, as the format strings of the bot write it. */
  function KeyName(k: Key): string {
    match k.family
    case Recent => "cache:user:" + k.user + ":recent"
    case Saved => "cache:user:" + k.user + "::expressions"
    case Preferences => "settings:user:" + k.user
  }

  /** Keys of different users or families have different names, for any user IDs. */
  lemma KeyNameInjective(a: Key, b: Key)
    requires KeyName(a) == KeyName(b)
    ensures a == b
  {
    var n := KeyName(a);
    KeyNameShape(a);
    KeyNameShape(b);
  }

  lemma KeyNameShape(k: Key)
    ensures var n := KeyName(k);
            && n != ""
            && (k.family.Preferences? <==> n[0] == 's')
            && (k.family.Recent? ==> n[|n| - 1] == 't' && |n| == 18 + |k.user| && n[11..|n| - 7] == k.user)
            && (k.family.Saved? ==> n[|n| - 1] == 's' && |n| == 24 + |k.user| && n[11..|n| - 13] == k.user)
            && (k.family.Preferences? ==> |n| == 14 + |k.user| && n[14..] == k.user)
  {
    var n := KeyName(k);
    match k.family
    case Recent =>
      assert n == "cache:user:" + (k.user + ":recent");
    case Saved =>
      assert n == "cache:user:" + (k.user + "::expressions");
    case Preferences =>
  }

  // ---------------------------------------------------------------- Redis and the cache

  datatype Value = Ranked(z: H.ZSet) | Table(rows: map<string, Roll>) | Names(names: set<string>)

  type Db = map<Key, Value>

  function ZOf(db: Db, k: Key): H.ZSet {
    if k in db && db[k].Ranked? then db[k].z else []
  }

  function RowsOf(db: Db, k: Key): map<string, Roll> {
    if k in db && db[k].Table? then db[k].rows else map[]
  }

  function NamesOf(db: Db, k: Key): set<string> {
    if k in db && db[k].Names? then db[k].names else {}
  }

  /** Redis drops a key whose collection became empty. */
  function Put(db: Db, k: Key, v: Value): Db {
    if v == Ranked([]) || v == Table(map[]) || v == Names({}) then db - {k} else db[k := v]
  }

  datatype Cached = Strings(items: seq<string>) | Rows(rows: map<string, Roll>)

  /** `c` is what the reader of `k` would fetch from Redis now. */
  ghost predicate Represents(c: Cached, db: Db, k: Key) {
    match k.family
    case Recent => c == Strings(H.ZRevRangeAll(ZOf(db, k)))
    case Saved => c == Rows(RowsOf(db, k))
    case Preferences =>
      && c.Strings?
      && (forall i, j | 0 <= i < j < |c.items| :: c.items[i] != c.items[j])
      && (forall x :: x in c.items <==> x in NamesOf(db, k))
  }

  datatype Config = Config(maxHistory: nat, recentTtl: int, maxExpressions: nat)

  datatype Store = Store(db: Db, lru: map<Key, Cached>, dirty: set<Key>)

  const INITIAL := Store(map[], map[], {})

  // ---------------------------------------------------------------- building blocks

  /** A miss stores the fetched value and may push out other entries. */
  function ReadThrough(s: Store, k: Key, c: Cached, gone: set<Key>): Store {
    if k in s.lru then s
    else s.(lru := s.lru[k := c] - (gone - {k}), dirty := s.dirty - {k})
  }

  /** What a reader of `k` gets. */
  function Seen(s: Store, k: Key, c: Cached): Cached {
    if k in s.lru then s.lru[k] else c
  }

  /** Writes Redis and removes the key from the cache. */
  function Refresh(s: Store, k: Key, v: Value): Store {
    Store(Put(s.db, k, v), s.lru - {k}, s.dirty - {k})
  }

  /** Writes Redis only. */
  function Overwrite(s: Store, k: Key, v: Value): Store {
    Store(Put(s.db, k, v), s.lru, s.dirty + {k})
  }

  function Delete(s: Store, k: Key): Store {
    Store(s.db - {k}, s.lru, s.dirty + {k})
  }

  // ---------------------------------------------------------------- operations

  const NO_RECENT := "norecent"

  function CacheRoll(cfg: Config, s: Store, u: string, r: Roll, now: int, c: Cached, gone: set<Key>): Store {
    var prefs, recent := Key(Preferences, u), Key(Recent, u);
    if !OkForAutocomplete(r) then s
    else
      var s1 := ReadThrough(s, prefs, c, gone);
      if OptedOut(Seen(s, prefs, c)) then s1
      else
        var event := H.Event(Serialize(r), now);
        Refresh(s1, recent, Ranked(H.Recorded(ZOf(s.db, recent), event, cfg.maxHistory, cfg.recentTtl)))
  }

  predicate OptedOut(c: Cached) {
    c.Strings? && NO_RECENT in c.items
  }

  function AddPreference(s: Store, u: string, name: string): Store {
    var k := Key(Preferences, u);
    Overwrite(s, k, Names(NamesOf(s.db, k) + {name}))
  }

  function RemovePreference(s: Store, u: string, name: string): Store {
    var k := Key(Preferences, u);
    Overwrite(s, k, Names(NamesOf(s.db, k) - {name}))
  }

  /** Opting out of the history also drops it. */
  function OptOut(s: Store, u: string): Store {
    Delete(AddPreference(s, u, NO_RECENT), Key(Recent, u))
  }

  function SetNamedRoll(s: Store, u: string, r: Roll): Store {
    var k := Key(Saved, u);
    if !OkForAutocomplete(r) then s else Refresh(s, k, Table(RowsOf(s.db, k)[ID(r) := r]))
  }

  function ModalSave(s: Store, u: string, r: Roll): Store {
    if Validate(Cleaned(r)).Some? then s else SetNamedRoll(s, u, Cleaned(r))
  }

  function SlashSave(cfg: Config, s: Store, u: string, r: Roll): Store {
    if |RowsOf(s.db, Key(Saved, u))| >= cfg.maxExpressions then s else ModalSave(s, u, r)
  }

  /** Both checks of a cleaned row. */
  predicate Fine(r: Roll) {
    Validate(r).None? && OkForAutocomplete(r)
  }

  predicate RowOk(r: Roll) {
    Fine(Cleaned(r))
  }

  /** Every row passes both checks. */
  predicate AllOk(rows: seq<Roll>) {
    rows == [] || (AllOk(rows[..|rows| - 1]) && RowOk(rows[|rows| - 1]))
  }

  predicate ImportOk(cfg: Config, rows: seq<Roll>) {
    |rows| <= cfg.maxExpressions && AllOk(rows)
  }

  function SaveAll(s: Store, u: string, rows: seq<Roll>): Store {
    if rows == [] then s
    else
      var n := |rows| - 1;
      SetNamedRoll(SaveAll(s, u, rows[..n]), u, Cleaned(rows[n]))
  }

  function Import(cfg: Config, s: Store, u: string, rows: seq<Roll>): Store {
    if !ImportOk(cfg, rows) then s else SaveAll(Delete(s, Key(Saved, u)), u, rows)
  }

  datatype Op =
    | Read(k: Key, c: Cached, gone: set<Key>)
    | DoCacheRoll(u: string, r: Roll, now: int, c: Cached, gone: set<Key>)
    | DoSlashSave(u: string, r: Roll)
    | DoModalSave(u: string, r: Roll)
    | DoImport(u: string, rows: seq<Roll>)
    | Unsave(u: string, id: string)
    | ClearExpressions(u: string)
    | ClearRecent(u: string)
    | SetPreference(u: string, name: string)
    | UnsetPreference(u: string, name: string)
    | DisableRecent(u: string)
    | Evict(k: Key)
    | Expire(k: Key)

  function Apply(cfg: Config, s: Store, op: Op): Store {
    match op
    case Read(k, c, gone) => ReadThrough(s, k, c, gone)
    case DoCacheRoll(u, r, now, c, gone) => CacheRoll(cfg, s, u, r, now, c, gone)
    case DoSlashSave(u, r) => SlashSave(cfg, s, u, r)
    case DoModalSave(u, r) => ModalSave(s, u, r)
    case DoImport(u, rows) => Import(cfg, s, u, rows)
    case Unsave(u, id) => Overwrite(s, Key(Saved, u), Table(RowsOf(s.db, Key(Saved, u)) - {id}))
    case ClearExpressions(u) => Delete(s, Key(Saved, u))
    case ClearRecent(u) => Delete(s, Key(Recent, u))
    case SetPreference(u, name) => AddPreference(s, u, name)
    case UnsetPreference(u, name) => RemovePreference(s, u, name)
    case DisableRecent(u) => OptOut(s, u)
    case Evict(k) => s.(lru := s.lru - {k})
    case Expire(k) => Delete(s, k)
  }

  /** A fetched value is the one Redis holds. */
  ghost predicate Allowed(s: Store, op: Op) {
    match op
    case Read(k, c, gone) => Represents(c, s.db, k)
    case DoCacheRoll(u, r, now, c, gone) => OkForAutocomplete(r) ==> Represents(c, s.db, Key(Preferences, u))
    case _ => true
  }

  function Run(cfg: Config, ops: seq<Op>): Store {
    if ops == [] then INITIAL else Apply(cfg, Run(cfg, ops[..|ops| - 1]), ops[|ops| - 1])
  }

  ghost predicate Legal(cfg: Config, ops: seq<Op>) {
    ops == [] || (Legal(cfg, ops[..|ops| - 1]) && Allowed(Run(cfg, ops[..|ops| - 1]), ops[|ops| - 1]))
  }
}
