/**
  Opening the shards: `Open` puts every session on a buffered channel, a pool of
  workers opens them, and `Open` collects one result per session.

  The model interleaves the main goroutine and the workers one step at a time.
 */
module WorkerPool {

  datatype Worker = Idle | Opening(session: nat) | Reporting(session: nat) | Exited

  /** Where the main goroutine is: sending session `next`, polling for the bot's own
      user with `polls` failing polls to go, collecting, or returned. */
  datatype Main = Sending(next: nat) | Polling(polls: nat) | Collecting | Returned

  /** `started` and `reported` are history: the sessions handed to `openSession` and
      those whose result was sent, in order.  A buffered result is remembered by the
      session it reports on. */
  datatype State = State(
    main: Main,
    sessions: seq<nat>,
    closed: bool,
    workers: seq<Worker>,
    done: seq<nat>,
    collected: seq<nat>,
    started: seq<nat>,
    reported: seq<nat>)

  datatype Action =
    | Send | Poll | CollectOne | Return
    | Take(w: nat) | Opened(w: nat) | Report(w: nat) | Exit(w: nat)

  /** `n` sessions, `k` workers, and at most `polls` failing polls before the deadline. */
  datatype Setup = Setup(n: nat, k: nat, polls: nat)

  datatype Result = Stuck | Reached(s: State)

  function Init(c: Setup): State {
    State(Sending(0), [], false, seq(c.k, _ => Idle), [], [], [], [])
  }

  /** A send on a full channel and a receive from an empty one are not enabled. */
  predicate Enabled(c: Setup, s: State, a: Action) {
    match a
    case Send => s.main.Sending? && s.main.next < c.n && |s.sessions| < c.n
    case Poll => (s.main.Sending? && s.main.next == c.n) || s.main.Polling?
    case CollectOne => s.main.Collecting? && |s.collected| < c.n && s.done != []
    case Return => s.main.Collecting? && |s.collected| == c.n
    case Take(w) => w < |s.workers| && s.workers[w].Idle? && s.sessions != []
    case Opened(w) => w < |s.workers| && s.workers[w].Opening?
    case Report(w) => w < |s.workers| && s.workers[w].Reporting? && |s.done| < c.n
    case Exit(w) => w < |s.workers| && s.workers[w].Idle? && s.sessions == [] && s.closed
  }

  function Next(c: Setup, s: State, a: Action): State
    requires Enabled(c, s, a)
  {
    match a
    case Send => s.(sessions := s.sessions + [s.main.next], main := Sending(s.main.next + 1))
    case Poll =>
      if s.main.Sending? then s.(main := Polling(c.polls))
      else if s.main.polls > 0 then s.(main := Polling(s.main.polls - 1))
      else s.(main := Collecting)
    case CollectOne => s.(done := s.done[1..], collected := s.collected + [s.done[0]])
    case Return => s.(main := Returned, closed := true)
    case Take(w) =>
      s.(sessions := s.sessions[1..],
         workers := s.workers[w := Opening(s.sessions[0])],
         started := s.started + [s.sessions[0]])
    case Opened(w) => s.(workers := s.workers[w := Reporting(s.workers[w].session)])
    case Report(w) =>
      s.(workers := s.workers[w := Idle],
         done := s.done + [s.workers[w].session],
         reported := s.reported + [s.workers[w].session])
    case Exit(w) => s.(workers := s.workers[w := Exited])
  }

  /** The state after a run, if every step of it was enabled. */
  function After(c: Setup, run: seq<Action>): (r: Result) {
    if run == [] then Reached(Init(c))
    else
      match After(c, run[..|run| - 1])
      case Stuck => Stuck
      case Reached(s) => if Enabled(c, s, run[|run| - 1]) then Reached(Next(c, s, run[|run| - 1])) else Stuck
  }

  // ---------------------------------------------------------------- conservation

  /** 1 if the worker has session `x` in hand. */
  function Has(w: Worker, x: nat): nat {
    if (w.Opening? || w.Reporting?) && w.session == x then 1 else 0
  }

  function Held(ws: seq<Worker>, x: nat): nat {
    if ws == [] then 0 else Has(ws[0], x) + Held(ws[1..], x)
  }

  function Busy(ws: seq<Worker>): nat {
    if ws == [] then 0 else (if ws[0].Opening? || ws[0].Reporting? then 1 else 0) + Busy(ws[1..])
  }

  function Sent(c: Setup, s: State): nat {
    if s.main.Sending? then s.main.next else c.n
  }

  /** In how many places a session is: unsent, queued, in a worker's hand, in the
      result buffer, or collected. */
  function Places(c: Setup, s: State, x: nat): nat {
    (if Sent(c, s) <= x < c.n then 1 else 0) + multiset(s.sessions)[x] + Held(s.workers, x)
    + multiset(s.done)[x] + multiset(s.collected)[x]
  }

  /** Every session is in exactly one place, and was handed to `openSession` once
      it left the queue. */
  ghost predicate Books(c: Setup, s: State) {
    && (forall x: nat :: Places(c, s, x) == if x < c.n then 1 else 0)
    && (forall x: nat :: Balance(s, x) == 0)
    && (c.n - Sent(c, s)) + |s.sessions| + Busy(s.workers) + |s.done| + |s.collected| == c.n
  }

  ghost predicate Control(c: Setup, s: State) {
    && Sent(c, s) <= c.n && |s.workers| == c.k
    && (s.closed <==> s.main.Returned?)
    && (s.main.Returned? ==> |s.collected| == c.n)
    && (!s.closed ==> forall w | 0 <= w < |s.workers| :: !s.workers[w].Exited?)
  }

  ghost predicate Inv(c: Setup, s: State) {
    Control(c, s) && Books(c, s)
  }

  lemma {:induction false} HeldUpdate(ws: seq<Worker>, i: nat, w: Worker, x: nat)
    requires i < |ws|
    ensures Held(ws[i := w], x) + Has(ws[i], x) == Held(ws, x) + Has(w, x)
  {
    var next := ws[i := w];
    if i == 0 {
      assert next[0] == w && next[1..] == ws[1..];
    } else {
      assert next[0] == ws[0] && next[1..] == ws[1..][i - 1 := w];
      HeldUpdate(ws[1..], i - 1, w, x);
    }
  }

  lemma {:induction false} BusyUpdate(ws: seq<Worker>, i: nat, w: Worker)
    requires i < |ws|
    ensures Busy(ws[i := w]) + Busy([ws[i]]) == Busy(ws) + Busy([w])
  {
    var next := ws[i := w];
    if i == 0 {
      assert next[0] == w && next[1..] == ws[1..];
    } else {
      assert next[0] == ws[0] && next[1..] == ws[1..][i - 1 := w];
      BusyUpdate(ws[1..], i - 1, w);
    }
  }

  /** Nobody is busy exactly when nobody holds anything. */
  lemma {:induction false} IdleHands(ws: seq<Worker>)
    ensures Busy(ws) == 0 <==> forall w | 0 <= w < |ws| :: !ws[w].Opening? && !ws[w].Reporting?
    ensures Busy(ws) == 0 ==> forall x: nat :: Held(ws, x) == 0
  {
    if ws != [] {
      IdleHands(ws[1..]);
      assert forall w | 1 <= w < |ws| :: ws[w] == ws[1..][w - 1];
    }
  }

  lemma InitInv(c: Setup)
    ensures Inv(c, Init(c))
  {
    IdleHands(Init(c).workers);
  }

  lemma Pop(q: seq<nat>, x: nat)
    requires q != []
    ensures multiset(q)[x] == multiset(q[1..])[x] + if q[0] == x then 1 else 0
  {
    assert q == [q[0]] + q[1..];
  }

  lemma Push(q: seq<nat>, e: nat, x: nat)
    ensures multiset(q + [e])[x] == multiset(q)[x] + if e == x then 1 else 0
  {
  }

  /** The sessions opened but not yet reported on, as an imbalance. */
  function Balance(s: State, x: nat): int {
    multiset(s.started)[x] - Held(s.workers, x) - multiset(s.done)[x] - multiset(s.collected)[x]
  }

  lemma TakePlaces(c: Setup, s: State, w: nat, x: nat)
    requires Control(c, s) && Enabled(c, s, Take(w))
    ensures Places(c, Next(c, s, Take(w)), x) == Places(c, s, x) && Balance(Next(c, s, Take(w)), x) == Balance(s, x)
  {
    var e := s.sessions[0];
    HeldUpdate(s.workers, w, Opening(e), x);
    Pop(s.sessions, x);
    Push(s.started, e, x);
  }

  lemma ReportPlaces(c: Setup, s: State, w: nat, x: nat)
    requires Control(c, s) && Enabled(c, s, Report(w))
    ensures Places(c, Next(c, s, Report(w)), x) == Places(c, s, x) && Balance(Next(c, s, Report(w)), x) == Balance(s, x)
  {
    HeldUpdate(s.workers, w, Idle, x);
    Push(s.done, s.workers[w].session, x);
  }

  lemma CollectPlaces(c: Setup, s: State, x: nat)
    requires Control(c, s) && Enabled(c, s, CollectOne)
    ensures Places(c, Next(c, s, CollectOne), x) == Places(c, s, x)
    ensures Balance(Next(c, s, CollectOne), x) == Balance(s, x)
  {
    Pop(s.done, x);
    Push(s.collected, s.done[0], x);
  }

  /** Every step only moves a session from one place to the next. */
  lemma StepPlaces(c: Setup, s: State, a: Action, x: nat)
    requires Control(c, s) && Enabled(c, s, a)
    ensures Places(c, Next(c, s, a), x) == Places(c, s, x) && Balance(Next(c, s, a), x) == Balance(s, x)
  {
    match a
    case Send => Push(s.sessions, s.main.next, x);
    case Take(w) => TakePlaces(c, s, w, x);
    case Opened(w) => HeldUpdate(s.workers, w, Reporting(s.workers[w].session), x);
    case Report(w) => ReportPlaces(c, s, w, x);
    case Exit(w) => HeldUpdate(s.workers, w, Exited, x);
    case CollectOne => CollectPlaces(c, s, x);
    case _ =>
  }

  lemma StepCount(c: Setup, s: State, a: Action)
    requires Control(c, s) && Books(c, s) && Enabled(c, s, a)
    ensures var t := Next(c, s, a);
            (c.n - Sent(c, t)) + |t.sessions| + Busy(t.workers) + |t.done| + |t.collected| == c.n
  {
    match a
    case Take(w) => BusyUpdate(s.workers, w, Opening(s.sessions[0]));
    case Opened(w) => BusyUpdate(s.workers, w, Reporting(s.workers[w].session));
    case Report(w) => BusyUpdate(s.workers, w, Idle);
    case Exit(w) => BusyUpdate(s.workers, w, Exited);
    case _ =>
  }

  /** Every step of every interleaving keeps the invariant. */
  lemma StepInv(c: Setup, s: State, a: Action)
    requires Inv(c, s) && Enabled(c, s, a)
    ensures Inv(c, Next(c, s, a))
  {
    forall x: nat
      ensures Places(c, Next(c, s, a), x) == if x < c.n then 1 else 0
      ensures Balance(Next(c, s, a), x) == 0
    {
      StepPlaces(c, s, a, x);
    }
    StepCount(c, s, a);
  }

  lemma {:induction false} RunInv(c: Setup, run: seq<Action>, s: State)
    requires After(c, run) == Reached(s)
    ensures Inv(c, s)
  {
    if run == [] {
      InitInv(c);
    } else {
      var n := |run| - 1;
      var p := After(c, run[..n]).s;
      RunInv(c, run[..n], p);
      StepInv(c, p, run[n]);
    }
  }

  // ---------------------------------------------------------------- order

  function Counting(n: nat): seq<nat> {
    seq(n, i => i)
  }

  /** Both channels are first in, first out: sessions are opened in the order of their
      indices, and results are collected in the order in which they were sent. */
  ghost predicate InOrder(c: Setup, s: State) {
    s.started + s.sessions == Counting(Sent(c, s)) && s.collected + s.done == s.reported
  }

  lemma StepInOrder(c: Setup, s: State, a: Action)
    requires Control(c, s) && InOrder(c, s) && Enabled(c, s, a)
    ensures InOrder(c, Next(c, s, a))
  {
    var t := Next(c, s, a);
    match a
    case Send =>
      assert t.started + t.sessions == (s.started + s.sessions) + [s.main.next];
      assert Counting(s.main.next + 1) == Counting(s.main.next) + [s.main.next];
    case Take(w) =>
      assert s.sessions == [s.sessions[0]] + s.sessions[1..];
      assert t.started + t.sessions == s.started + s.sessions;
    case CollectOne =>
      assert s.done == [s.done[0]] + s.done[1..];
      assert t.collected + t.done == s.collected + s.done;
    case Report(w) =>
      assert t.collected + t.done == (s.collected + s.done) + [s.workers[w].session];
    case _ =>
  }

  lemma {:induction false} StartedInOrder(c: Setup, run: seq<Action>, s: State)
    requires After(c, run) == Reached(s)
    ensures InOrder(c, s)
  {
    if run != [] {
      var n := |run| - 1;
      var p := After(c, run[..n]).s;
      StartedInOrder(c, run[..n], p);
      RunInv(c, run[..n], p);
      StepInOrder(c, p, run[n]);
    }
  }

  function Polls(run: seq<Action>): nat {
    if run == [] then 0 else Polls(run[..|run| - 1]) + if run[|run| - 1].Poll? then 1 else 0
  }

  /** Collection begins after every session was sent and every poll was made. */
  lemma {:induction false} PollsBeforeCollecting(c: Setup, run: seq<Action>, s: State)
    requires After(c, run) == Reached(s)
    ensures match s.main
            case Sending(_) => Polls(run) == 0
            case Polling(polls) => polls <= c.polls && Polls(run) == 1 + c.polls - polls
            case _ => Polls(run) == c.polls + 2
    ensures Polls(run) > 0 ==> Sent(c, s) == c.n
  {
    if run != [] {
      var n := |run| - 1;
      PollsBeforeCollecting(c, run[..n], After(c, run[..n]).s);
    }
  }

  // ---------------------------------------------------------------- no send blocks, no deadlock

  /** Both channels always have room for the next send. */
  lemma SendsNeverBlock(c: Setup, s: State)
    requires Inv(c, s)
    ensures s.main.Sending? && s.main.next < c.n ==> Enabled(c, s, Send)
    ensures forall w | 0 <= w < |s.workers| && s.workers[w].Reporting? :: Enabled(c, s, Report(w))
  {
    IdleHands(s.workers);
  }

  /** The program is over: `Open` returned and every worker ended. */
  predicate Over(s: State) {
    s.main.Returned? && forall w | 0 <= w < |s.workers| :: s.workers[w].Exited?
  }

  /** With at least one worker, some step is possible until everything is over. */
  lemma NoDeadlock(c: Setup, s: State) returns (a: Action)
    requires Inv(c, s) && c.k >= 1 && !Over(s)
    ensures Enabled(c, s, a)
  {
    IdleHands(s.workers);
    if s.main.Sending? {
      a := if s.main.next < c.n then Send else Poll;
    } else if s.main.Polling? {
      a := Poll;
    } else if w :| 0 <= w < |s.workers| && s.workers[w].Opening? {
      a := Opened(w);
    } else if w :| 0 <= w < |s.workers| && s.workers[w].Reporting? {
      a := Report(w);
    } else if s.main.Collecting? {
      if |s.collected| == c.n {
        a := Return;
      } else if s.done != [] {
        a := CollectOne;
      } else {
        assert s.workers[0].Idle?;
        a := Take(0);
      }
    } else {
      var w :| 0 <= w < |s.workers| && !s.workers[w].Exited?;
      assert |s.sessions| == 0;
      a := Exit(w);
    }
  }

  ghost predicate NothingDone(c: Setup, s: State) {
    && s.workers == [] && s.started == [] && s.done == [] && s.collected == []
    && (c.n > 0 ==> !s.main.Returned?)
  }

  lemma NoWorkersStep(c: Setup, s: State, a: Action)
    requires NothingDone(c, s) && Enabled(c, s, a)
    ensures NothingDone(c, Next(c, s, a))
  {
  }

  /** Without workers nothing is ever opened, and `Open` never returns. */
  lemma {:induction false} NoWorkersNoReturn(c: Setup, run: seq<Action>, s: State)
    requires After(c, run) == Reached(s) && c.k == 0
    ensures NothingDone(c, s)
  {
    if run != [] {
      var n := |run| - 1;
      var p := After(c, run[..n]).s;
      NoWorkersNoReturn(c, run[..n], p);
      NoWorkersStep(c, p, run[n]);
    }
  }

  // ---------------------------------------------------------------- termination

  function Weight(w: Worker): nat {
    match w
    case Idle => 1
    case Opening(_) => 4
    case Reporting(_) => 3
    case Exited => 0
  }

  function Weights(ws: seq<Worker>): nat {
    if ws == [] then 0 else Weight(ws[0]) + Weights(ws[1..])
  }

  /** What is left to do; queued sessions weigh more than the work in hand. */
  function Measure(c: Setup, s: State): nat {
    (match s.main
     case Sending(next) => (if next < c.n then 6 * (c.n - next) else 0) + c.polls + 3
     case Polling(polls) => polls + 2
     case Collecting => 1
     case Returned => 0)
    + 5 * |s.sessions| + Weights(s.workers) + |s.done|
  }

  lemma {:induction false} WeightsUpdate(ws: seq<Worker>, i: nat, w: Worker)
    requires i < |ws|
    ensures Weights(ws[i := w]) + Weight(ws[i]) == Weights(ws) + Weight(w)
  {
    if i == 0 {
      assert ws[i := w][1..] == ws[1..];
    } else {
      assert ws[i := w][1..] == ws[1..][i - 1 := w];
      WeightsUpdate(ws[1..], i - 1, w);
    }
  }

  /** Every step of every interleaving makes progress, so all runs are finite. */
  lemma StepsDecrease(c: Setup, s: State, a: Action)
    requires Inv(c, s) && Enabled(c, s, a)
    ensures Measure(c, Next(c, s, a)) < Measure(c, s)
  {
    match a
    case Take(w) => WeightsUpdate(s.workers, w, Opening(s.sessions[0]));
    case Opened(w) => WeightsUpdate(s.workers, w, Reporting(s.workers[w].session));
    case Report(w) => WeightsUpdate(s.workers, w, Idle);
    case Exit(w) => WeightsUpdate(s.workers, w, Exited);
    case _ =>
  }

  lemma {:induction false} RunsAreFinite(c: Setup, run: seq<Action>, s: State)
    requires After(c, run) == Reached(s)
    ensures |run| + Measure(c, s) <= Measure(c, Init(c))
  {
    if run != [] {
      var n := |run| - 1;
      var p := After(c, run[..n]).s;
      RunsAreFinite(c, run[..n], p);
      RunInv(c, run[..n], p);
      StepsDecrease(c, p, run[n]);
    }
  }

  // ---------------------------------------------------------------- the result

  /** When collection ends, nothing is queued or in hand any more, and every
      session was opened exactly once. */
  lemma CollectedMeansOpened(c: Setup, run: seq<Action>, s: State)
    requires After(c, run) == Reached(s) && |s.collected| == c.n
    ensures forall x: nat :: multiset(s.collected)[x] == if x < c.n then 1 else 0
    ensures forall x: nat :: multiset(s.started)[x] == if x < c.n then 1 else 0
    ensures s.sessions == [] && s.done == []
  {
    RunInv(c, run, s);
    IdleHands(s.workers);
    forall x: nat
      ensures multiset(s.collected)[x] == if x < c.n then 1 else 0
      ensures multiset(s.started)[x] == if x < c.n then 1 else 0
    {
      assert Places(c, s, x) == (if x < c.n then 1 else 0) && Balance(s, x) == 0;
    }
  }

  /** Before that, `Open` cannot have returned. */
  lemma ReturnedMeansOpened(c: Setup, run: seq<Action>, s: State)
    requires After(c, run) == Reached(s) && s.main.Returned?
    ensures forall x: nat :: multiset(s.started)[x] == if x < c.n then 1 else 0
  {
    RunInv(c, run, s);
    CollectedMeansOpened(c, run, s);
  }

  /** A run that cannot be extended, whatever the interleaving, has `Open` returned
      and all workers ended exactly when there is a worker at all. */
  lemma MaximalRunsFinish(c: Setup, run: seq<Action>, s: State)
    requires After(c, run) == Reached(s) && c.n > 0
    requires forall a :: !Enabled(c, s, a)
    ensures Over(s) <==> c.k >= 1
  {
    RunInv(c, run, s);
    if c.k == 0 {
      NoWorkersNoReturn(c, run, s);
    } else if !Over(s) {
      var a := NoDeadlock(c, s);
    }
  }
}
