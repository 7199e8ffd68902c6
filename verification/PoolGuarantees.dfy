/**
 What the batch protocol guarantees over all of its runs, and where it falls short of the
 at-least-once claim in the filter's README.
 */
module PoolGuarantees {
  import opened Sql
  import opened LaddList
  import opened WorkerPool
  import LaddStore

  // ---------- at least once, exactly ----------

  /**
   Every offset below the committed one has exactly one of two fates: it ended well and was then
   committed by the same session, or it failed and a later batch of the same session committed past
   it. A message that never ended well in any session is of the second kind.
   */
  lemma CommittedOffsetsHaveExactlyOneFate(
    log: seq<Entry>, cfg: Config, file: Option<LaddStore.ListFile>, steps: seq<Step>, s: State, o: nat)
    requires After(log, cfg, Init(cfg, file), steps) == Some(s)
    ensures CommittedPast(s.hist, o) <==> o < s.committed && !HandledThenCommitted(s.hist, o)
    ensures HandledThenCommitted(s.hist, o) <==> o < s.committed && !CommittedPast(s.hist, o)
    ensures o < s.committed && !Settled(s.hist, o) ==> CommittedPast(s.hist, o)
  {
    EveryRunKeepsTheInvariant(log, cfg, file, steps, s);
    OneFate(s.hist, o);
    if HandledThenCommitted(s.hist, o) {
      var i, j :| i < j && GoodAt(s.hist, i, o) && CommitAt(s.hist, j, o) && NoCrashIn(s.hist, i, j);
    }
  }

  /** A run in which nothing failed loses nothing. */
  lemma WithoutFailuresNothingIsLost(
    log: seq<Entry>, cfg: Config, file: Option<LaddStore.ListFile>, steps: seq<Step>, s: State, o: nat)
    requires After(log, cfg, Init(cfg, file), steps) == Some(s)
    requires forall i :: 0 <= i < |s.hist| ==> !BadEvent(s.hist[i])
    requires o < s.committed
    ensures HandledThenCommitted(s.hist, o)
  {
    CommittedOffsetsHaveExactlyOneFate(log, cfg, file, steps, s, o);
    assert !CommittedPast(s.hist, o);
  }

  lemma AfterOne(log: seq<Entry>, cfg: Config, s: State, steps: seq<Step>, step: Step, t: State)
    requires After(log, cfg, s, steps) == Some(t) && Enabled(log, cfg, t, step)
    ensures After(log, cfg, s, steps + [step]) == Some(Next(log, cfg, t, step))
  {
    assert (steps + [step])[..|steps|] == steps;
  }

  lemma {:induction false} AfterConcat(log: seq<Entry>, cfg: Config, s: State, a: seq<Step>, b: seq<Step>)
    requires After(log, cfg, s, a).Some?
    ensures After(log, cfg, s, a + b) == After(log, cfg, After(log, cfg, s, a).value, b)
  {
    if b == [] {
      assert a + b == a;
    } else {
      assert (a + b)[..|a + b| - 1] == a + b[..|b| - 1];
      AfterConcat(log, cfg, s, a, b[..|b| - 1]);
    }
  }

  /** A pool that can run and checks no list, such as the normalizer's. */
  predicate IsOpen(cfg: Config) {
    cfg.workers >= 1 && cfg.batchSize >= 1 && !cfg.gated
  }

  /** Between batches, nothing in flight. */
  ghost predicate Idle(s: State) {
    s.batch.None? && s.channel == [] && |s.workers| >= 1 && forall w :: 0 <= w < |s.workers| ==> s.workers[w] == Free
  }

  lemma InitIsIdle(cfg: Config)
    requires IsOpen(cfg)
    ensures Idle(Init(cfg, None)) && Init(cfg, None).snap == NOTHING_LOADED
  {
  }

  /** The gate lets the pool fetch at this clock time. */
  predicate GateOpens(cfg: Config, snap: Snapshot, now: int) {
    cfg.workers >= 1 && cfg.batchSize >= 1 && (cfg.gated ==> Ready(snap, cfg.maxAge, now))
  }

  /** The first worker has been handed the next message. */
  lemma HandToWorker(log: seq<Entry>, cfg: Config, s: State, now: int) returns (steps: seq<Step>, t: State)
    requires GateOpens(cfg, s.snap, now) && Idle(s) && s.fetch < |log|
    ensures After(log, cfg, s, steps) == Some(t)
    ensures t.workers == s.workers[0 := Busy(s.fetch)] && t.channel == [] && t.fetch == s.fetch + 1
    ensures t.batch == Some(Batch(s.fetch, s.fetch + 1, s.fetch + 1, 1, false, Gate(s.snap, now), |s.hist|))
    ensures t.hist == s.hist && t.committed == s.committed && t.snap == s.snap
  {
    var fetch := Fetch(1, now);
    AfterOne(log, cfg, s, [], fetch, s);
    var s1 := Next(log, cfg, s, fetch);
    AfterOne(log, cfg, s, [] + [fetch], Send, s1);
    var s2 := Next(log, cfg, s1, Send);
    AfterOne(log, cfg, s, [] + [fetch] + [Send], Take(0), s2);
    steps, t := [] + [fetch] + [Send] + [Take(0)], Next(log, cfg, s2, Take(0));
  }

  /** A worker publishes everything, or fails to publish anything, and returns. */
  lemma PublishAndReturn(log: seq<Entry>, cfg: Config, s: State, w: nat, ok: bool) returns (steps: seq<Step>, t: State)
    requires s.batch.Some? && w < |s.workers| && s.workers[w].Busy? && s.workers[w].o < |log|
    requires !log[s.workers[w].o].Poison? && !Suppresses(s.snap, log[s.workers[w].o])
    ensures After(log, cfg, s, steps) == Some(t)
    ensures var o := s.workers[w].o;
      var gate := s.batch.value.gate;
      var outcome := if ok then Published(AllOf(FlightsIn(log[o])), s.snap, gate) else PublishFailed([], s.snap, gate);
      && t.workers == s.workers[w := Returned(o)]
      && t.hist == s.hist + [Finished(o, outcome)]
    ensures t.batch == Some(s.batch.value.(failed := s.batch.value.failed || !ok))
    ensures t.channel == s.channel && t.fetch == s.fetch && t.committed == s.committed && t.snap == s.snap
  {
    AfterOne(log, cfg, s, [], Clear(w), s);
    var s1 := Next(log, cfg, s, Clear(w));
    var publish := Publish(w, if ok then AllOf(FlightsIn(log[s.workers[w].o])) else [], ok);
    AfterOne(log, cfg, s, [] + [Clear(w)], publish, s1);
    steps, t := [] + [Clear(w)] + [publish], Next(log, cfg, s1, publish);
    assert s.workers[w := Cleared(s.workers[w].o, s.snap)][w := Returned(s.workers[w].o)]
        == s.workers[w := Returned(s.workers[w].o)];
  }

  /** The last worker is done, the barrier opens and the batch is closed. */
  lemma CloseBatch(log: seq<Entry>, cfg: Config, s: State, lands: bool) returns (steps: seq<Step>, t: State)
    requires s.batch.Some? && |s.workers| >= 1 && s.workers[0].Returned?
    requires s.batch.value.sent == s.batch.value.hi && s.batch.value.pending == 1
    ensures After(log, cfg, s, steps) == Some(t)
    ensures t.batch.None? && t.channel == s.channel && t.workers == s.workers[0 := Free]
    ensures t.fetch == s.fetch && t.snap == s.snap
    ensures s.batch.value.failed || !lands ==> t.committed == s.committed && t.hist == s.hist
    ensures !s.batch.value.failed && lands ==>
      t.committed == s.batch.value.hi && t.hist == s.hist + [CommitTo(s.batch.value.hi)]
  {
    AfterOne(log, cfg, s, [], Done(0), s);
    var s1 := Next(log, cfg, s, Done(0));
    AfterOne(log, cfg, s, [] + [Done(0)], Barrier(lands), s1);
    steps, t := [] + [Done(0)] + [Barrier(lands)], Next(log, cfg, s1, Barrier(lands));
  }

  /** One message as a batch of its own, handled by the first worker. */
  lemma SingleBatch(log: seq<Entry>, cfg: Config, s: State, ok: bool) returns (steps: seq<Step>, t: State)
    requires IsOpen(cfg) && Idle(s) && s.fetch < |log|
    requires !log[s.fetch].Poison? && !Suppresses(s.snap, log[s.fetch])
    ensures After(log, cfg, s, steps) == Some(t)
    ensures Idle(t) && t.fetch == s.fetch + 1 && t.snap == s.snap
    ensures t.committed == if ok then s.fetch + 1 else s.committed
    ensures var all := Published(AllOf(FlightsIn(log[s.fetch])), s.snap, Gate(s.snap, 0));
      t.hist == if ok then s.hist + [Finished(s.fetch, all)] + [CommitTo(s.fetch + 1)]
                else s.hist + [Finished(s.fetch, PublishFailed([], s.snap, Gate(s.snap, 0)))]
  {
    var a, s1 := HandToWorker(log, cfg, s, 0);
    var b, s2 := PublishAndReturn(log, cfg, s1, 0, ok);
    var c, s3 := CloseBatch(log, cfg, s2, true);
    AfterConcat(log, cfg, s, a, b);
    AfterConcat(log, cfg, s, a + b, c);
    steps, t := a + b + c, s3;
  }

  /**
   The README's unconditional at-least-once is not what the code does, in any configuration: after a
   failed batch the loop goes on with the next one, whose commit passes the failed message.
   */
  lemma FailedBatchCanBeCommittedPast(cfg: Config)
    requires IsOpen(cfg)
    ensures exists log, steps, s ::
      && After(log, cfg, Init(cfg, None), steps) == Some(s)
      && s.committed == 2 && !Settled(s.hist, 0)
  {
    var log := [Envelope(1), Envelope(1)];
    var s0 := Init(cfg, None);
    InitIsIdle(cfg);
    assert forall k :: 0 <= k < |log| ==> !Suppresses(NOTHING_LOADED, log[k]);
    var steps1, s1 := SingleBatch(log, cfg, s0, false);
    var steps2, s2 := SingleBatch(log, cfg, s1, true);
    AfterConcat(log, cfg, s0, steps1, steps2);
    assert !Settled(s2.hist, 0);
  }

  /** A worker whose message is to be suppressed returns at once. */
  lemma SuppressAndReturn(log: seq<Entry>, cfg: Config, s: State) returns (steps: seq<Step>, t: State)
    requires s.batch.Some? && |s.workers| >= 1 && s.workers[0].Busy? && s.workers[0].o < |log|
    requires Suppresses(s.snap, log[s.workers[0].o])
    ensures After(log, cfg, s, steps) == Some(t)
    ensures var o := s.workers[0].o;
      && t.workers == s.workers[0 := Returned(o)]
      && t.hist == s.hist + [Finished(o, Suppressed(s.snap, s.batch.value.gate))]
    ensures t.batch == s.batch && t.channel == s.channel && t.fetch == s.fetch
    ensures t.committed == s.committed && t.snap == s.snap
  {
    AfterOne(log, cfg, s, [], Suppress(0), s);
    steps, t := [] + [Suppress(0)], Next(log, cfg, s, Suppress(0));
  }

  /**
   What an idle filter with a ready list, or any other idle pool, can do with a flight: forward it and
   commit if it is not on the list, and commit without forwarding if it is.
   */
  lemma FlightCanBeHandled(log: seq<Entry>, cfg: Config, s: State, now: int) returns (steps: seq<Step>, t: State)
    requires GateOpens(cfg, s.snap, now) && Idle(s) && s.fetch < |log| && log[s.fetch].Flight?
    ensures After(log, cfg, s, steps) == Some(t)
    ensures t.fetch == s.fetch + 1 && t.committed == s.fetch + 1
    ensures var f, gate := log[s.fetch], Gate(s.snap, now);
      var outcome := if OnList(s.snap.lines, f.callSign, f.registration) then Suppressed(s.snap, gate)
                     else Published([0], s.snap, gate);
      t.hist == s.hist + [Finished(s.fetch, outcome)] + [CommitTo(s.fetch + 1)]
  {
    var f := log[s.fetch];
    BlocksIffOnList(s.snap.lines, f.callSign, f.registration);
    assert AllOf(1) == [0];
    var a, s1 := HandToWorker(log, cfg, s, now);
    var b, s2;
    if OnList(s.snap.lines, f.callSign, f.registration) {
      b, s2 := SuppressAndReturn(log, cfg, s1);
    } else {
      b, s2 := PublishAndReturn(log, cfg, s1, 0, true);
    }
    var c, s3 := CloseBatch(log, cfg, s2, true);
    AfterConcat(log, cfg, s, a, b);
    AfterConcat(log, cfg, s, a + b, c);
    steps, t := a + b + c, s3;
  }

  /** A newer list can be installed at any moment. */
  lemma NewerListCanBeInstalled(log: seq<Entry>, cfg: Config, s: State, file: LaddStore.ListFile) returns (t: State)
    requires LaddStore.Loads(file) && LaddStore.LoadOf(file).date > s.snap.date
    ensures After(log, cfg, s, [Reload(file)]) == Some(t)
    ensures LaddStore.IsLoadOf(t.snap, file.name, file.content)
  {
    AfterOne(log, cfg, s, [], Reload(file), s);
    t := Next(log, cfg, s, Reload(file));
    assert [] + [Reload(file)] == [Reload(file)];
  }

  // ---------- the barrier ----------

  /** A commit lands only when each message of its batch has finished exactly once, and well. */
  lemma CommitOnlyAfterAllFinishedWell(
    log: seq<Entry>, cfg: Config, file: Option<LaddStore.ListFile>, steps: seq<Step>, s: State, lands: bool)
    requires After(log, cfg, Init(cfg, file), steps) == Some(s)
    requires BarrierOpen(s) && Next(log, cfg, s, Barrier(lands)).committed != s.committed
    ensures s.batch.value.mark <= |s.hist|
    ensures var b := s.batch.value;
      && (forall o: nat :: Times(s.hist[b.mark..], o) == One(b.lo <= o < b.hi))
      && (forall i :: b.mark <= i < |s.hist| && s.hist[i].Finished? ==> Good(s.hist[i].outcome))
      && Next(log, cfg, s, Barrier(lands)).committed == b.hi
  {
    EveryRunKeepsTheInvariant(log, cfg, file, steps, s);
    BarrierMeansAllFinished(log, cfg, s);
    forall i | s.batch.value.mark <= i < |s.hist| && s.hist[i].Finished? ensures Good(s.hist[i].outcome) {
      assert !BadEvent(s.hist[i]);
    }
  }

  /** At every barrier each message taken is counted once: parse error, suppressed, published or publish error. */
  lemma CountersBalanceAtBarrier(
    log: seq<Entry>, cfg: Config, file: Option<LaddStore.ListFile>, steps: seq<Step>, s: State)
    requires After(log, cfg, Init(cfg, file), steps) == Some(s)
    requires BarrierOpen(s)
    ensures s.stats.taken
         == s.stats.parseErrors + s.stats.suppressed + s.stats.published + s.stats.publishErrors
    ensures CountersAreExact(s)
  {
    EveryRunKeepsTheInvariant(log, cfg, file, steps, s);
    BarrierMeansAllFinished(log, cfg, s);
    NoneOccupiedMeansFree(s.workers);
    AllFreeCounts(s.workers, 0);
  }

  /** What is left to do before the barrier opens. */
  function Weight(worker: Worker): nat {
    match worker
    case Free => 0
    case Busy(_) => 3
    case Cleared(_, _) => 2
    case Returned(_) => 1
  }

  function Weights(ws: seq<Worker>): nat {
    if ws == [] then 0 else Weights(ws[..|ws| - 1]) + Weight(ws[|ws| - 1])
  }

  function Remaining(s: State): int
    requires s.batch.Some?
  {
    5 * (s.batch.value.hi - s.batch.value.sent) + 4 * |s.channel| + Weights(s.workers)
  }

  lemma {:induction false} UpdateWeights(ws: seq<Worker>, w: nat, x: Worker)
    requires w < |ws|
    ensures Weights(ws[w := x]) == Weights(ws) - Weight(ws[w]) + Weight(x)
  {
    var n := |ws| - 1;
    if w < n {
      assert ws[w := x][..n] == ws[..n][w := x];
      UpdateWeights(ws[..n], w, x);
    } else {
      assert ws[w := x][..n] == ws[..n];
    }
  }

  /** A step of the dispatcher or of a worker, as opposed to the environment's. */
  predicate IsWork(step: Step) {
    step.Send? || step.Take? || step.Poisoned? || step.Suppress? || step.Clear? || step.Publish? || step.Done?
  }

  /** No deadlock: until the barrier opens, the dispatcher or some worker can move. */
  lemma SomeWorkIsAlwaysEnabled(
    log: seq<Entry>, cfg: Config, file: Option<LaddStore.ListFile>, steps: seq<Step>, s: State)
    requires After(log, cfg, Init(cfg, file), steps) == Some(s)
    requires cfg.workers >= 1 && s.batch.Some? && !BarrierOpen(s)
    ensures exists step :: IsWork(step) && Enabled(log, cfg, s, step)
  {
    EveryRunKeepsTheInvariant(log, cfg, file, steps, s);
    var b := s.batch.value;
    if b.sent < b.hi {
      assert Enabled(log, cfg, s, Send);
    } else if Occupied(s.workers) > 0 {
      var w := SomeOccupied(s.workers);
      OccupiedWorkerCanMove(log, cfg, s, w);
    } else {
      NoneOccupiedMeansFree(s.workers);
      assert Enabled(log, cfg, s, Take(0));
    }
  }

  lemma OccupiedWorkerCanMove(log: seq<Entry>, cfg: Config, s: State, w: nat)
    requires Invariant(log, cfg, s) && s.batch.Some? && w < |s.workers| && s.workers[w] != Free
    ensures exists step :: IsWork(step) && Enabled(log, cfg, s, step)
  {
    if s.workers[w].Busy? || s.workers[w].Cleared? {
      HeldOffsetIsNew(log, cfg, s, w);
    }
    match s.workers[w]
    case Busy(o) =>
      if log[o].Poison? {
        assert Enabled(log, cfg, s, Poisoned(w, true));
      } else if Suppresses(s.snap, log[o]) {
        assert Enabled(log, cfg, s, Suppress(w));
      } else {
        assert Enabled(log, cfg, s, Clear(w));
      }
    case Cleared(o, _) => assert Enabled(log, cfg, s, Publish(w, AllOf(FlightsIn(log[o])), true));
    case Returned(_) => assert Enabled(log, cfg, s, Done(w));
  }

  /** Every such move brings the barrier closer, and a reload does not push it away. */
  lemma WorkDecreasesRemaining(log: seq<Entry>, cfg: Config, s: State, step: Step)
    requires InFlight(log, cfg, s) && s.batch.Some? && Enabled(log, cfg, s, step)
    requires IsWork(step) || step.Reload?
    ensures var t := Next(log, cfg, s, step);
      && t.batch.Some? && 0 <= Remaining(t)
      && (if IsWork(step) then Remaining(t) < Remaining(s) else Remaining(t) == Remaining(s))
  {
    match step
    case Take(w) => UpdateWeights(s.workers, w, Busy(s.channel[0]));
    case Poisoned(w, _) => UpdateWeights(s.workers, w, Returned(s.workers[w].o));
    case Suppress(w) => UpdateWeights(s.workers, w, Returned(s.workers[w].o));
    case Clear(w) => UpdateWeights(s.workers, w, Cleared(s.workers[w].o, s.snap));
    case Publish(w, _, _) => UpdateWeights(s.workers, w, Returned(s.workers[w].o));
    case Done(w) => UpdateWeights(s.workers, w, Free);
    case _ =>
  }

  // ---------- the block list ----------

  predicate Installs(step: Step) {
    step.Reload? || step.Crash?
  }

  /** What a reload or a restart puts in effect: the file's lines and date, or nothing. */
  ghost predicate InEffect(snap: Snapshot, step: Step) {
    match step
    case Reload(file) => LaddStore.IsLoadOf(snap, file.name, file.content)
    case Crash(Some(file)) =>
      if LaddStore.Loads(file) then LaddStore.IsLoadOf(snap, file.name, file.content) else snap == NOTHING_LOADED
    case Crash(None) => snap == NOTHING_LOADED
    case _ => true
  }

  /** The list in use is the one installed last. */
  lemma {:induction false} LastInstalledIsInEffect(
    log: seq<Entry>, cfg: Config, s: State, steps: seq<Step>, t: State, i: nat)
    requires After(log, cfg, s, steps) == Some(t)
    requires i < |steps| && Installs(steps[i]) && forall k :: i < k < |steps| ==> !Installs(steps[k])
    ensures InEffect(t.snap, steps[i])
  {
    var n := |steps| - 1;
    if i < n {
      LastInstalledIsInEffect(log, cfg, s, steps[..n], After(log, cfg, s, steps[..n]).value, i);
    }
  }

  /** A corollary of what `Reload` installs: within a session the list never goes back in time. */
  lemma {:induction false} ListDateNeverGoesBack(log: seq<Entry>, cfg: Config, s: State, steps: seq<Step>, t: State)
    requires After(log, cfg, s, steps) == Some(t)
    requires forall i :: 0 <= i < |steps| ==> !steps[i].Crash?
    ensures t.snap.date >= s.snap.date
  {
    if steps != [] {
      var n := |steps| - 1;
      ListDateNeverGoesBack(log, cfg, s, steps[..n], After(log, cfg, s, steps[..n]).value);
    }
  }

  /**
   Every forwarded flight was looked up in a list at least as new as the one in effect at the head of
   its batch, and no listed line of that list is its call sign or registration. For the filter the
   list at the head of the batch had passed the readiness check at that moment, and the list looked up
   is one file's lines with that file's date.
   */
  lemma ForwardedFlightsPassedAFreshList(
    log: seq<Entry>, cfg: Config, file: Option<LaddStore.ListFile>, steps: seq<Step>, s: State, i: nat)
    requires After(log, cfg, Init(cfg, file), steps) == Some(s)
    requires i < |s.hist| && s.hist[i].Finished? && s.hist[i].outcome.Published?
    ensures s.hist[i].o < |log|
    ensures s.hist[i].outcome.seen.date >= s.hist[i].outcome.gate.list.date
    ensures cfg.gated ==> Ready(s.hist[i].outcome.gate.list, cfg.maxAge, s.hist[i].outcome.gate.at)
    ensures var gate := s.hist[i].outcome.gate;
      cfg.gated ==>
        && gate.list.date > 0 && SomeListed(gate.list.lines)
        && (cfg.maxAge > 0 ==> gate.at <= gate.list.date + cfg.maxAge)
    ensures cfg.gated ==> LaddStore.IsFileLoad(s.hist[i].outcome.seen)
    ensures log[s.hist[i].o].Flight? ==>
      var f := log[s.hist[i].o]; !OnList(s.hist[i].outcome.seen.lines, f.callSign, f.registration)
  {
    EveryRunKeepsTheInvariant(log, cfg, file, steps, s);
    var e, seen := log[s.hist[i].o], s.hist[i].outcome.seen;
    if e.Flight? {
      BlocksIffOnList(seen.lines, e.callSign, e.registration);
    }
    if cfg.gated {
      ReadyMeans(s.hist[i].outcome.gate.list, cfg.maxAge, s.hist[i].outcome.gate.at);
      OpenGateMeansLoaded(seen, s.hist[i].outcome.gate.list, cfg.maxAge, s.hist[i].outcome.gate.at);
    }
  }

  /** The numbers below `n`, in order. */
  ghost predicate IsCountUpTo(ks: seq<nat>, n: nat) {
    |ks| == n && forall k :: 0 <= k < n ==> ks[k] == k
  }

  /**
   In every run a message ends as it must: quarantined or not exactly when it cannot be parsed; an
   envelope suppressed exactly when it is empty; a flight suppressed exactly when it is on the list
   that was looked up, which is at least as new as the one at the head of its batch and, in the filter,
   one file's. Whatever is neither poison nor suppressed was published or failed to be.
   */
  lemma OutcomeIsDecided(
    log: seq<Entry>, cfg: Config, file: Option<LaddStore.ListFile>, steps: seq<Step>, s: State, i: nat)
    requires After(log, cfg, Init(cfg, file), steps) == Some(s)
    requires i < |s.hist| && s.hist[i].Finished?
    ensures s.hist[i].o < |log|
    ensures var e, outcome := log[s.hist[i].o], s.hist[i].outcome;
      && (e.Poison? <==> outcome.DeadLettered? || outcome.DeadLetterFailed?)
      && (e.Envelope? ==> (outcome.Suppressed? <==> e.flights == 0))
      && (e.Flight? ==> (outcome.Suppressed? <==> OnList(outcome.seen.lines, e.callSign, e.registration)))
      && (e.Flight? && outcome.Published? ==> outcome.landed == [0])
      && (e.Envelope? && outcome.Published? ==> IsCountUpTo(outcome.landed, e.flights))
      && (!e.Poison? ==> outcome.seen.date >= outcome.gate.list.date)
      && (!e.Poison? && cfg.gated ==> LaddStore.IsFileLoad(outcome.seen))
  {
    EveryRunKeepsTheInvariant(log, cfg, file, steps, s);
    var e, outcome := log[s.hist[i].o], s.hist[i].outcome;
    assert OutcomeFits(log, s.hist[i].o, outcome);
    assert outcome.Published? ==> IsCountUpTo(outcome.landed, FlightsIn(e));
    if e.Flight? {
      BlocksIffOnList(outcome.seen.lines, e.callSign, e.registration);
    }
    if !e.Poison? && cfg.gated {
      assert LooksUp(outcome);
      OpenGateMeansLoaded(outcome.seen, outcome.gate.list, cfg.maxAge, outcome.gate.at);
    }
  }

  /** The steps in which a quarantine or a publication was reported failed. */
  function FailedSteps(steps: seq<Step>): nat {
    if steps == [] then 0 else FailedSteps(steps[..|steps| - 1]) + One(ReportsFailure(steps[|steps| - 1]))
  }

  function BadEvents(es: seq<Event>): nat {
    if es == [] then 0 else BadEvents(es[..|es| - 1]) + One(BadEvent(es[|es| - 1]))
  }

  lemma BadEventsSnoc(es: seq<Event>, e: Event)
    ensures BadEvents(es + [e]) == BadEvents(es) + One(BadEvent(e))
  {
    assert (es + [e])[..|es|] == es;
  }

  /** A run has as many failed messages as there were failures reported to it, no more and no fewer. */
  lemma {:induction false} FailuresAreThoseReported(log: seq<Entry>, cfg: Config, s: State, steps: seq<Step>, t: State)
    requires After(log, cfg, s, steps) == Some(t)
    ensures BadEvents(t.hist) == BadEvents(s.hist) + FailedSteps(steps)
  {
    if steps != [] {
      var n := |steps| - 1;
      var mid := After(log, cfg, s, steps[..n]).value;
      FailuresAreThoseReported(log, cfg, s, steps[..n], mid);
      StepFailsAsReported(log, cfg, mid, steps[n]);
    }
  }

  /** What an observer sees of a step, if anything. */
  ghost function EventsOf(log: seq<Entry>, cfg: Config, s: State, step: Step): seq<Event>
    requires Enabled(log, cfg, s, step)
  {
    match step
    case Poisoned(w, _) => [Finished(s.workers[w].o, FinishedWith(s, step))]
    case Suppress(w) => [Finished(s.workers[w].o, FinishedWith(s, step))]
    case Publish(w, _, _) => [Finished(s.workers[w].o, FinishedWith(s, step))]
    case Barrier(lands) => if s.batch.value.failed || !lands then [] else [CommitTo(s.batch.value.hi)]
    case Crash(_) => [Crashed]
    case _ => []
  }

  lemma HistoryOfStep(log: seq<Entry>, cfg: Config, s: State, step: Step)
    requires Enabled(log, cfg, s, step)
    ensures Next(log, cfg, s, step).hist == s.hist + EventsOf(log, cfg, s, step)
  {
    assert s.hist + [] == s.hist;
  }

  predicate ReportsFailure(step: Step) {
    (step.Poisoned? && !step.quarantined) || (step.Publish? && !step.ok)
  }

  lemma EventFailsAsReported(log: seq<Entry>, cfg: Config, s: State, step: Step)
    requires Enabled(log, cfg, s, step)
    ensures |EventsOf(log, cfg, s, step)| <= 1
    ensures ReportsFailure(step) <==> EventsOf(log, cfg, s, step) != [] && BadEvent(EventsOf(log, cfg, s, step)[0])
  {
  }

  lemma BadEventsOfOne(es: seq<Event>, more: seq<Event>, bad: bool)
    requires |more| <= 1 && (bad <==> more != [] && BadEvent(more[0]))
    ensures BadEvents(es + more) == BadEvents(es) + One(bad)
  {
    if more == [] {
      assert es + more == es;
    } else {
      assert more == [more[0]];
      BadEventsSnoc(es, more[0]);
    }
  }

  lemma StepFailsAsReported(log: seq<Entry>, cfg: Config, s: State, step: Step)
    requires Enabled(log, cfg, s, step)
    ensures BadEvents(Next(log, cfg, s, step).hist) == BadEvents(s.hist) + One(ReportsFailure(step))
  {
    HistoryOfStep(log, cfg, s, step);
    EventFailsAsReported(log, cfg, s, step);
    BadEventsOfOne(s.hist, EventsOf(log, cfg, s, step), ReportsFailure(step));
  }

  lemma OpenGateMeansLoaded(seen: Snapshot, gate: Snapshot, maxAge: int, at: int)
    requires LoadedOrNothing(seen) && LoadedOrNothing(gate) && Ready(gate, maxAge, at) && seen.date >= gate.date
    ensures LaddStore.IsFileLoad(seen) && gate.date > 0
  {
    assert gate.date > 0 by {
      var f :| LaddStore.Loads(f) && gate == LaddStore.LoadOf(f);
    }
  }
}
