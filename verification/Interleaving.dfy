/**
  The store under concurrency.  Handlers run in parallel, so a read is two
  atomic steps, a fetch from Redis and a fill of the cache, and a pipelined
  write is two as well: the cached entry is dropped when the pipeline is
  assembled, which is before Redis executes it.
 */
module Interleaving {
  import opened StoreSpec
  import Coherence

  datatype Pending = Pending(k: Key, c: Cached)

  datatype State = State(db: Db, lru: map<Key, Cached>, pending: map<nat, Pending>)

  const START := State(map[], map[], map[])

  datatype Action =
    | Fetch(thread: nat, k: Key, c: Cached)
    | Fill(thread: nat, gone: set<Key>)
    | Drop(k: Key)
    | Exec(k: Key, v: Value)
    | Evict(k: Key)
    | Expire(k: Key)

  ghost predicate Enabled(s: State, a: Action) {
    match a
    case Fetch(thread, k, c) => k !in s.lru && thread !in s.pending && Represents(c, s.db, k)
    case Fill(thread, gone) => thread in s.pending
    case _ => true
  }

  function Next(s: State, a: Action): State {
    match a
    case Fetch(thread, k, c) => s.(pending := s.pending[thread := Pending(k, c)])
    case Fill(thread, gone) =>
      if thread in s.pending then
        var p := s.pending[thread];
        s.(lru := s.lru[p.k := p.c] - gone, pending := s.pending - {thread})
      else s
    case Drop(k) => s.(lru := s.lru - {k})
    case Exec(k, v) => s.(db := Put(s.db, k, v))
    case Evict(k) => s.(lru := s.lru - {k})
    case Expire(k) => s.(db := s.db - {k})
  }

  function Trace(actions: seq<Action>): State {
    if actions == [] then START else Next(Trace(actions[..|actions| - 1]), actions[|actions| - 1])
  }

  ghost predicate Legal(actions: seq<Action>) {
    actions == [] ||
    (Legal(actions[..|actions| - 1]) && Enabled(Trace(actions[..|actions| - 1]), actions[|actions| - 1]))
  }

  /** Redis held this value for the key at some point of the run. */
  ghost predicate OnceHeld(actions: seq<Action>, k: Key, c: Cached) {
    exists i :: 0 <= i <= |actions| && Represents(c, Trace(actions[..i]).db, k)
  }

  lemma OnceHeldLater(actions: seq<Action>, k: Key, c: Cached)
    requires actions != [] && OnceHeld(actions[..|actions| - 1], k, c)
    ensures OnceHeld(actions, k, c)
  {
    var n := |actions| - 1;
    var i :| 0 <= i <= n && Represents(c, Trace(actions[..n][..i]).db, k);
    assert actions[..n][..i] == actions[..i];
  }

  /** In every interleaving, each cached entry and each value a reader is about to
      cache was held by Redis for its key at some point of the run. */
  lemma {:induction false} CachedValuesWereHeld(actions: seq<Action>)
    requires Legal(actions)
    ensures forall k | k in Trace(actions).lru :: OnceHeld(actions, k, Trace(actions).lru[k])
    ensures forall t | t in Trace(actions).pending ::
              OnceHeld(actions, Trace(actions).pending[t].k, Trace(actions).pending[t].c)
  {
    if actions != [] {
      var n := |actions| - 1;
      var prev, a := actions[..n], actions[n];
      var s, t := Trace(prev), Trace(actions);
      CachedValuesWereHeld(prev);
      forall k | k in s.lru
        ensures OnceHeld(actions, k, s.lru[k])
      {
        OnceHeldLater(actions, k, s.lru[k]);
      }
      forall p | p in s.pending
        ensures OnceHeld(actions, s.pending[p].k, s.pending[p].c)
      {
        OnceHeldLater(actions, s.pending[p].k, s.pending[p].c);
      }
      if a.Fetch? {
        assert Represents(a.c, Trace(prev).db, a.k);
      }
    }
  }

  /** So every read, hit or miss, returns a value Redis once held. */
  lemma ReadsWereHeld(actions: seq<Action>, k: Key, c: Cached)
    requires Legal(actions)
    requires if k in Trace(actions).lru then c == Trace(actions).lru[k] else Represents(c, Trace(actions).db, k)
    ensures OnceHeld(actions, k, c)
  {
    CachedValuesWereHeld(actions);
    assert actions[..|actions|] == actions;
  }

  /** Run without interruption, the two halves of a write are one step of the
      sequential store, and so are the two halves of a read. */
  lemma UninterruptedSteps(s: State, k: Key, v: Value, thread: nat, c: Cached, gone: set<Key>)
    requires thread !in s.pending
    ensures var t := Next(Next(s, Drop(k)), Exec(k, v));
            var r := Refresh(Store(s.db, s.lru, {}), k, v);
            t.db == r.db && t.lru == r.lru && t.pending == s.pending
    ensures k !in s.lru && k !in gone ==>
              var t := Next(Next(s, Fetch(thread, k, c)), Fill(thread, gone));
              var r := ReadThrough(Store(s.db, s.lru, {}), k, c, gone);
              t.db == r.db && t.lru == r.lru && t.pending == s.pending
  {
    if k !in gone {
      assert gone - {k} == gone;
    }
  }

  /** Interrupted, they are not: a reader between the drop and the execution caches
      the old value, and the finished write leaves it there. */
  lemma InterruptedWriteLeavesStale(actions: seq<Action>, k: Key, c: Cached, v: Value, thread: nat)
    requires Legal(actions) && thread !in Trace(actions).pending
    requires Represents(c, Trace(actions).db, k) && !Represents(c, Put(Trace(actions).db, k, v), k)
    ensures var run := actions + [Drop(k), Fetch(thread, k, c), Fill(thread, {}), Exec(k, v)];
            Legal(run) && k in Trace(run).lru && !Represents(Trace(run).lru[k], Trace(run).db, k)
  {
    Extend(actions, Drop(k));
    var a1 := actions + [Drop(k)];
    Extend(a1, Fetch(thread, k, c));
    var a2 := a1 + [Fetch(thread, k, c)];
    Extend(a2, Fill(thread, {}));
    var a3 := a2 + [Fill(thread, {})];
    Extend(a3, Exec(k, v));
    assert actions + [Drop(k), Fetch(thread, k, c), Fill(thread, {}), Exec(k, v)] == a3 + [Exec(k, v)];
  }

  lemma Extend(actions: seq<Action>, a: Action)
    ensures Trace(actions + [a]) == Next(Trace(actions), a)
    ensures Legal(actions) && Enabled(Trace(actions), a) ==> Legal(actions + [a])
  {
    assert (actions + [a])[..|actions|] == actions;
  }

  // ---------------------------------------------------------------- which interleavings stay current

  /** Every cached value, and every value on its way into the cache, is what Redis holds now. */
  ghost predicate Current(s: State) {
    && (forall k | k in s.lru :: Represents(s.lru[k], s.db, k))
    && (forall t | t in s.pending :: Represents(s.pending[t].c, s.db, s.pending[t].k))
  }

  /** A copy of the key's value is cached or on its way into the cache. */
  ghost predicate Copied(s: State, k: Key) {
    k in s.lru || exists t :: t in s.pending && s.pending[t].k == k
  }

  /** A step that changes Redis changes nothing that any copy shows. */
  ghost predicate Quiet(s: State, a: Action) {
    match a
    case Exec(k, v) => Copied(s, k) ==> Coherence.LooksSame(s.db, Put(s.db, k, v), k)
    case Expire(k) => Copied(s, k) ==> Coherence.LooksSame(s.db, s.db - {k}, k)
    case _ => true
  }

  lemma WriteStaysCurrentExactly(s: State, db: Db, k: Key)
    requires Current(s) && s.db - {k} == db - {k}
    ensures Current(s.(db := db)) <==> (Copied(s, k) ==> Coherence.LooksSame(s.db, db, k))
  {
    forall q: Key, c: Cached | Represents(c, s.db, q)
      ensures Represents(c, db, q) <==> (q == k ==> Coherence.LooksSame(s.db, db, k))
    {
      if q == k {
        Coherence.CurrentInBoth(c, s.db, db, k);
      } else {
        OtherKeySame(c, s.db, db, k, q);
      }
    }
    if k in s.lru {
      assert Represents(s.lru[k], s.db, k);
    }
    if t :| t in s.pending && s.pending[t].k == k {
      assert Represents(s.pending[t].c, s.db, k);
    }
  }

  lemma OtherKeySame(c: Cached, db: Db, db': Db, k: Key, q: Key)
    requires db - {k} == db' - {k} && q != k
    ensures Represents(c, db', q) <==> Represents(c, db, q)
  {
    assert q in db <==> q in db - {k};
    assert q in db' <==> q in db' - {k};
    assert q in db ==> db[q] == (db - {k})[q] == (db' - {k})[q] == db'[q];
  }

  /** One step keeps all copies current exactly when it is quiet. */
  lemma StepStaysCurrentExactly(s: State, a: Action)
    requires Current(s) && Enabled(s, a)
    ensures Current(Next(s, a)) <==> Quiet(s, a)
  {
    match a
    case Exec(k, v) => WriteStaysCurrentExactly(s, Put(s.db, k, v), k);
    case Expire(k) => WriteStaysCurrentExactly(s, s.db - {k}, k);
    case _ =>
  }

  ghost predicate AlwaysCurrent(actions: seq<Action>) {
    actions == [] || (AlwaysCurrent(actions[..|actions| - 1]) && Current(Trace(actions)))
  }

  ghost predicate AlwaysQuiet(actions: seq<Action>) {
    actions == [] ||
    (AlwaysQuiet(actions[..|actions| - 1]) && Quiet(Trace(actions[..|actions| - 1]), actions[|actions| - 1]))
  }

  /** An interleaving keeps all copies current throughout exactly when every step of
      it is quiet where it happens. */
  lemma {:induction false} InterleavingIsCurrentExactly(actions: seq<Action>)
    requires Legal(actions)
    ensures AlwaysCurrent(actions) ==> Current(Trace(actions))
    ensures AlwaysCurrent(actions) <==> AlwaysQuiet(actions)
  {
    if actions != [] {
      var n := |actions| - 1;
      InterleavingIsCurrentExactly(actions[..n]);
      if Current(Trace(actions[..n])) {
        StepStaysCurrentExactly(Trace(actions[..n]), actions[n]);
      }
    }
  }

  /** A key that is dropped, with no read of it under way, takes a write quietly,
      whatever the write is. */
  lemma UncopiedWriteIsQuiet(s: State, k: Key, v: Value)
    requires forall t | t in s.pending :: s.pending[t].k != k
    ensures Quiet(Next(s, Drop(k)), Exec(k, v))
  {
  }
}
