/**
 The batch protocol the filter and the normalizer share: a dispatcher sends a batch's messages
 down a channel, workers process them in any interleaving, a WaitGroup is the barrier, and the
 offset is committed only if no worker raised the failure flag. Crashes restart from the committed
 offset; the filter's block list may be reloaded at any moment.
 */
module WorkerPool {
  import opened Sql
  import opened LaddList
  import LaddStore

  /** An input message as the stage sees it: unparseable, an envelope of flights, or one flight. */
  datatype Entry = Poison | Envelope(flights: nat) | Flight(callSign: string, registration: string)

  /** `gated` is the filter, which checks its list before every batch. */
  datatype Config = Config(workers: nat, batchSize: nat, gated: bool, maxAge: int)

  datatype Worker = Free | Busy(o: nat) | Cleared(o: nat, seen: Snapshot) | Returned(o: nat)

  /** The list in effect when the batch was fetched, and the clock it was checked against. */
  datatype Gate = Gate(list: Snapshot, at: int)

  /** `landed` says which flights of the message reached the topic. */
  datatype Outcome =
    | DeadLettered
    | Suppressed(seen: Snapshot, gate: Gate) // blocked by the filter, or an envelope without flights
    | Published(landed: seq<nat>, seen: Snapshot, gate: Gate)
    | DeadLetterFailed
    | PublishFailed(landed: seq<nat>, seen: Snapshot, gate: Gate) // reported failed, whatever reached the topic

  predicate Good(x: Outcome) {
    !x.DeadLetterFailed? && !x.PublishFailed?
  }

  /** What an observer of a run can see. */
  datatype Event = Finished(o: nat, outcome: Outcome) | CommitTo(hi: nat) | Crashed

  /** `pending` is the WaitGroup; `mark` remembers the length of the history at the fetch. */
  datatype Batch = Batch(lo: nat, hi: nat, sent: nat, pending: int, failed: bool, gate: Gate, mark: nat)

  datatype Stats = Stats(taken: nat, parseErrors: nat, suppressed: nat, published: nat, publishErrors: nat)

  const NO_STATS := Stats(0, 0, 0, 0, 0)

  /** `start` and `session` remember where the running session began, in the log and in the history. */
  datatype State = State(
    committed: nat,
    fetch: nat,
    batch: Option<Batch>,
    channel: seq<nat>,
    workers: seq<Worker>,
    snap: Snapshot,
    stats: Stats,
    hist: seq<Event>,
    start: nat,
    session: nat)

  datatype Step =
    | Fetch(n: nat, now: int)
    | Send
    | Take(w: nat)
    | Poisoned(w: nat, quarantined: bool)
    | Suppress(w: nat)
    | Clear(w: nat)
    | Publish(w: nat, landed: seq<nat>, ok: bool)
    | Done(w: nat)
    | Barrier(lands: bool)
    | Reload(file: LaddStore.ListFile)
    | Crash(found: Option<LaddStore.ListFile>)

  /** How many flights a message carries. */
  function FlightsIn(e: Entry): nat {
    match e
    case Poison => 0
    case Envelope(flights) => flights
    case Flight(_, _) => 1
  }

  function AllOf(n: nat): seq<nat> {
    seq(n, i requires 0 <= i < n => i)
  }

  /** Some of the first `n` flights, each once and in order. */
  ghost predicate SomeOf(landed: seq<nat>, n: nat) {
    && (forall i :: 0 <= i < |landed| ==> landed[i] < n)
    && (forall i, j :: 0 <= i < j < |landed| ==> landed[i] < landed[j])
  }

  /** What a starting filter installs: a list if one loads, else nothing. */
  function Start(file: Option<LaddStore.ListFile>): Snapshot {
    if file.Some? && LaddStore.Loads(file.value) then LaddStore.LoadOf(file.value) else NOTHING_LOADED
  }

  /** The parse succeeded and nothing is to be published. */
  predicate Suppresses(snap: Snapshot, e: Entry) {
    match e
    case Poison => false
    case Envelope(flights) => flights == 0
    case Flight(callSign, registration) => Blocks(Entries(snap.lines), callSign, registration)
  }

  predicate BarrierOpen(s: State) {
    s.batch.Some? && s.batch.value.sent == s.batch.value.hi && s.batch.value.pending == 0
  }

  ghost predicate Enabled(log: seq<Entry>, cfg: Config, s: State, step: Step) {
    match step
    case Fetch(n, now) =>
      && s.batch.None? && 1 <= n <= cfg.batchSize && s.fetch + n <= |log|
      && (cfg.gated ==> Ready(s.snap, cfg.maxAge, now))
    case Send => s.batch.Some? && s.batch.value.sent < s.batch.value.hi && |s.channel| < cfg.batchSize
    case Take(w) => w < |s.workers| && s.workers[w] == Free && s.channel != []
    case Poisoned(w, _) =>
      w < |s.workers| && s.workers[w].Busy? && s.workers[w].o < |log| && log[s.workers[w].o].Poison? && s.batch.Some?
    case Suppress(w) =>
      && w < |s.workers| && s.workers[w].Busy? && s.workers[w].o < |log| && s.batch.Some?
      && Suppresses(s.snap, log[s.workers[w].o])
    case Clear(w) =>
      && w < |s.workers| && s.workers[w].Busy? && s.workers[w].o < |log|
      && !log[s.workers[w].o].Poison? && !Suppresses(s.snap, log[s.workers[w].o])
    case Publish(w, landed, ok) =>
      && w < |s.workers| && s.workers[w].Cleared? && s.workers[w].o < |log| && s.batch.Some?
      && SomeOf(landed, FlightsIn(log[s.workers[w].o]))
      && (ok ==> landed == AllOf(FlightsIn(log[s.workers[w].o])))
    case Done(w) => w < |s.workers| && s.workers[w].Returned? && s.batch.Some?
    case Barrier(_) => BarrierOpen(s)
    case Reload(file) => LaddStore.Loads(file) && LaddStore.LoadOf(file).date > s.snap.date
    case Crash(_) => true
  }

  /** A worker's `process` call returns with an outcome; a bad one raises the batch's flag. */
  function Finish(s: State, w: nat, outcome: Outcome): State
    requires w < |s.workers| && (s.workers[w].Busy? || s.workers[w].Cleared?) && s.batch.Some?
  {
    s.(workers := s.workers[w := Returned(s.workers[w].o)],
       batch := Some(s.batch.value.(failed := s.batch.value.failed || !Good(outcome))),
       hist := s.hist + [Finished(s.workers[w].o, outcome)])
  }

  ghost function Next(log: seq<Entry>, cfg: Config, s: State, step: Step): State
    requires Enabled(log, cfg, s, step)
  {
    match step
    case Fetch(n, now) =>
      s.(fetch := s.fetch + n,
         batch := Some(Batch(s.fetch, s.fetch + n, s.fetch, n, false, Gate(s.snap, now), |s.hist|)))
    case Send =>
      s.(channel := s.channel + [s.batch.value.sent],
         batch := Some(s.batch.value.(sent := s.batch.value.sent + 1)))
    case Take(w) =>
      s.(workers := s.workers[w := Busy(s.channel[0])], channel := s.channel[1..],
         stats := s.stats.(taken := s.stats.taken + 1))
    case Poisoned(w, quarantined) =>
      Finish(s, w, if quarantined then DeadLettered else DeadLetterFailed)
        .(stats := s.stats.(parseErrors := s.stats.parseErrors + 1))
    case Suppress(w) =>
      Finish(s, w, Suppressed(s.snap, s.batch.value.gate)).(stats := s.stats.(suppressed := s.stats.suppressed + 1))
    case Clear(w) =>
      s.(workers := s.workers[w := Cleared(s.workers[w].o, s.snap)])
    case Publish(w, landed, ok) =>
      if ok then
        Finish(s, w, Published(landed, s.workers[w].seen, s.batch.value.gate))
          .(stats := s.stats.(published := s.stats.published + 1))
      else
        Finish(s, w, PublishFailed(landed, s.workers[w].seen, s.batch.value.gate))
          .(stats := s.stats.(publishErrors := s.stats.publishErrors + 1))
    case Done(w) =>
      s.(workers := s.workers[w := Free], batch := Some(s.batch.value.(pending := s.batch.value.pending - 1)))
    case Barrier(lands) =>
      if s.batch.value.failed || !lands then s.(batch := None)
      else s.(batch := None, committed := s.batch.value.hi, hist := s.hist + [CommitTo(s.batch.value.hi)])
    case Reload(file) => s.(snap := LaddStore.LoadOf(file))
    case Crash(file) =>
      State(s.committed, s.committed, None, [], seq(|s.workers|, _ => Free), Start(file), NO_STATS,
            s.hist + [Crashed], s.committed, |s.hist| + 1)
  }

  function Init(cfg: Config, file: Option<LaddStore.ListFile>): State {
    State(0, 0, None, [], seq(cfg.workers, _ => Free), Start(file), NO_STATS, [], 0, 0)
  }

  ghost function After(log: seq<Entry>, cfg: Config, s: State, steps: seq<Step>): Option<State> {
    if steps == [] then Some(s)
    else
      var before := After(log, cfg, s, steps[..|steps| - 1]);
      if before.Some? && Enabled(log, cfg, before.value, steps[|steps| - 1])
      then Some(Next(log, cfg, before.value, steps[|steps| - 1]))
      else None
  }

  // ---------- counting ----------

  predicate Holds(worker: Worker, o: nat) {
    (worker.Busy? || worker.Cleared?) && worker.o == o
  }

  function One(b: bool): nat {
    if b then 1 else 0
  }

  /** How many workers are in the middle of processing offset `o`. */
  function Held(ws: seq<Worker>, o: nat): nat {
    if ws == [] then 0 else Held(ws[..|ws| - 1], o) + One(Holds(ws[|ws| - 1], o))
  }

  /** How many workers are between taking a job and calling `Done`. */
  function Occupied(ws: seq<Worker>): nat {
    if ws == [] then 0 else Occupied(ws[..|ws| - 1]) + One(ws[|ws| - 1] != Free)
  }

  /** How many workers are inside `process`. */
  function Inside(ws: seq<Worker>): nat {
    if ws == [] then 0 else Inside(ws[..|ws| - 1]) + One(ws[|ws| - 1].Busy? || ws[|ws| - 1].Cleared?)
  }

  /** How often the history reports offset `o` finished. */
  function Times(es: seq<Event>, o: nat): nat {
    if es == [] then 0 else Times(es[..|es| - 1], o) + One(es[|es| - 1].Finished? && es[|es| - 1].o == o)
  }

  lemma {:induction false} UpdateCounts(ws: seq<Worker>, w: nat, x: Worker, o: nat)
    requires w < |ws|
    ensures Held(ws[w := x], o) == Held(ws, o) - One(Holds(ws[w], o)) + One(Holds(x, o))
    ensures Occupied(ws[w := x]) == Occupied(ws) - One(ws[w] != Free) + One(x != Free)
    ensures Inside(ws[w := x]) == Inside(ws) - One(ws[w].Busy? || ws[w].Cleared?) + One(x.Busy? || x.Cleared?)
  {
    var n := |ws| - 1;
    if w < n {
      assert ws[w := x][..n] == ws[..n][w := x];
      UpdateCounts(ws[..n], w, x, o);
    } else {
      assert ws[w := x][..n] == ws[..n];
    }
  }

  lemma {:induction false} AllFreeCounts(ws: seq<Worker>, o: nat)
    requires forall w :: 0 <= w < |ws| ==> ws[w] == Free
    ensures Held(ws, o) == 0 && Occupied(ws) == 0 && Inside(ws) == 0
  {
    if ws != [] {
      AllFreeCounts(ws[..|ws| - 1], o);
    }
  }

  lemma {:induction false} NoneOccupiedMeansFree(ws: seq<Worker>)
    requires Occupied(ws) == 0
    ensures forall w :: 0 <= w < |ws| ==> ws[w] == Free
  {
    if ws != [] {
      var n := |ws| - 1;
      NoneOccupiedMeansFree(ws[..n]);
      assert forall w :: 0 <= w < n ==> ws[w] == ws[..n][w];
    }
  }

  lemma {:induction false} SomeOccupied(ws: seq<Worker>) returns (w: nat)
    requires Occupied(ws) > 0
    ensures w < |ws| && ws[w] != Free
  {
    var n := |ws| - 1;
    if ws[n] != Free {
      w := n;
    } else {
      w := SomeOccupied(ws[..n]);
    }
  }

  lemma {:induction false} HolderIsCounted(ws: seq<Worker>, w: nat)
    requires w < |ws| && (ws[w].Busy? || ws[w].Cleared?)
    ensures Held(ws, ws[w].o) >= 1
  {
    var n := |ws| - 1;
    if w < n {
      HolderIsCounted(ws[..n], w);
    }
  }

  lemma TimesSnoc(es: seq<Event>, from: nat, e: Event, o: nat)
    requires from <= |es|
    ensures Times((es + [e])[from..], o) == Times(es[from..], o) + One(e.Finished? && e.o == o)
  {
    assert (es + [e])[from..] == es[from..] + [e];
    assert (es[from..] + [e])[..|es[from..]|] == es[from..];
  }

  lemma {:induction false} TimesMeansFinished(es: seq<Event>, o: nat)
    ensures Times(es, o) > 0 <==> exists i :: 0 <= i < |es| && es[i].Finished? && es[i].o == o
  {
    if es != [] {
      var n := |es| - 1;
      TimesMeansFinished(es[..n], o);
      assert forall i :: 0 <= i < n ==> es[..n][i] == es[i];
      if exists i :: 0 <= i < |es| && es[i].Finished? && es[i].o == o {
        var i :| 0 <= i < |es| && es[i].Finished? && es[i].o == o;
        assert i < n ==> es[..n][i].Finished? && es[..n][i].o == o;
      }
    }
  }

  // ---------- the batch in flight ----------

  function TakenUpTo(s: State): int
    requires s.batch.Some?
  {
    s.batch.value.sent - |s.channel|
  }

  /** Between batches nothing is in flight; within one, the channel and the WaitGroup add up. */
  ghost predicate InFlight(log: seq<Entry>, cfg: Config, s: State) {
    && |s.workers| == cfg.workers
    && s.start <= s.committed <= s.fetch <= |log| && s.session <= |s.hist|
    && if s.batch.None? then
         s.channel == [] && Occupied(s.workers) == 0
       else
         var b := s.batch.value;
         && s.committed <= b.lo < b.hi == s.fetch && b.hi <= b.lo + cfg.batchSize
         && b.lo <= TakenUpTo(s) && b.sent <= b.hi && s.session <= b.mark <= |s.hist|
         && (forall i :: 0 <= i < |s.channel| ==> s.channel[i] == TakenUpTo(s) + i)
         && b.pending == b.hi - TakenUpTo(s) + Occupied(s.workers)
  }

  /** Every offset handed to a worker is either held by exactly one or finished exactly once. */
  ghost predicate ExactlyOnce(s: State) {
    s.batch.Some? ==>
      var b := s.batch.value;
      b.mark <= |s.hist| &&
      forall o: nat :: Held(s.workers, o) + Times(s.hist[b.mark..], o) == One(b.lo <= o < TakenUpTo(s))
  }

  lemma StepKeepsInFlight(log: seq<Entry>, cfg: Config, s: State, step: Step)
    requires InFlight(log, cfg, s) && Enabled(log, cfg, s, step)
    ensures InFlight(log, cfg, Next(log, cfg, s, step))
  {
    match step
    case Take(_) => TakeKeepsInFlight(log, cfg, s, step);
    case Poisoned(_, _) => FinishStepKeepsInFlight(log, cfg, s, step);
    case Suppress(_) => FinishStepKeepsInFlight(log, cfg, s, step);
    case Publish(_, _, _) => FinishStepKeepsInFlight(log, cfg, s, step);
    case Clear(_) => ClearOrDoneKeepsInFlight(log, cfg, s, step);
    case Done(_) => ClearOrDoneKeepsInFlight(log, cfg, s, step);
    case _ => OtherStepKeepsInFlight(log, cfg, s, step);
  }

  lemma FinishStepKeepsInFlight(log: seq<Entry>, cfg: Config, s: State, step: Step)
    requires InFlight(log, cfg, s) && Enabled(log, cfg, s, step) && (step.Poisoned? || step.Suppress? || step.Publish?)
    ensures InFlight(log, cfg, Next(log, cfg, s, step))
  {
    var t, w := Next(log, cfg, s, step), step.w;
    var outcome := FinishedWith(s, step);
    assert t == Finish(s, w, outcome).(stats := t.stats);
    FinishKeepsInFlight(log, cfg, s, w, outcome);
  }

  /** How the `process` call that this step ends turned out. */
  function FinishedWith(s: State, step: Step): Outcome
    requires step.Poisoned? || step.Suppress? || step.Publish?
    requires step.Publish? ==> step.w < |s.workers| && s.workers[step.w].Cleared?
    requires s.batch.Some?
  {
    match step
    case Poisoned(_, quarantined) => if quarantined then DeadLettered else DeadLetterFailed
    case Suppress(_) => Suppressed(s.snap, s.batch.value.gate)
    case Publish(w, landed, ok) =>
      if ok then Published(landed, s.workers[w].seen, s.batch.value.gate)
      else PublishFailed(landed, s.workers[w].seen, s.batch.value.gate)
  }

  lemma ClearOrDoneKeepsInFlight(log: seq<Entry>, cfg: Config, s: State, step: Step)
    requires InFlight(log, cfg, s) && Enabled(log, cfg, s, step) && (step.Clear? || step.Done?)
    ensures InFlight(log, cfg, Next(log, cfg, s, step))
  {
    var w := step.w;
    UpdateCounts(s.workers, w, if step.Done? then Free else Cleared(s.workers[w].o, s.snap), 0);
  }

  lemma OtherStepKeepsInFlight(log: seq<Entry>, cfg: Config, s: State, step: Step)
    requires InFlight(log, cfg, s) && Enabled(log, cfg, s, step)
    requires step.Fetch? || step.Send? || step.Barrier? || step.Reload? || step.Crash?
    ensures InFlight(log, cfg, Next(log, cfg, s, step))
  {
    AllFreeCounts(seq(|s.workers|, _ => Free), 0);
  }

  lemma TakeKeepsInFlight(log: seq<Entry>, cfg: Config, s: State, step: Step)
    requires InFlight(log, cfg, s) && Enabled(log, cfg, s, step) && step.Take?
    ensures InFlight(log, cfg, Next(log, cfg, s, step))
  {
    UpdateCounts(s.workers, step.w, Busy(s.channel[0]), 0);
  }

  lemma FinishKeepsInFlight(log: seq<Entry>, cfg: Config, s: State, w: nat, outcome: Outcome)
    requires w < |s.workers| && (s.workers[w].Busy? || s.workers[w].Cleared?) && s.batch.Some?
    requires InFlight(log, cfg, s)
    ensures InFlight(log, cfg, Finish(s, w, outcome))
  {
    UpdateCounts(s.workers, w, Returned(s.workers[w].o), 0);
  }

  lemma FinishKeepsExactlyOnce(s: State, w: nat, outcome: Outcome)
    requires w < |s.workers| && (s.workers[w].Busy? || s.workers[w].Cleared?) && s.batch.Some?
    requires ExactlyOnce(s)
    ensures ExactlyOnce(Finish(s, w, outcome))
  {
    var t, b := Finish(s, w, outcome), s.batch.value;
    forall o: nat ensures Held(t.workers, o) + Times(t.hist[b.mark..], o) == One(b.lo <= o < TakenUpTo(s)) {
      UpdateCounts(s.workers, w, Returned(s.workers[w].o), o);
      TimesSnoc(s.hist, b.mark, Finished(s.workers[w].o, outcome), o);
    }
  }

  lemma WorkerChangeKeepsExactlyOnce(s: State, t: State, w: nat, x: Worker)
    requires s.batch.Some? && t.batch.Some? && w < |s.workers| && t.workers == s.workers[w := x] && t.hist == s.hist
    requires t.batch.value.lo == s.batch.value.lo && t.batch.value.mark == s.batch.value.mark
    requires ExactlyOnce(s)
    requires forall o: nat ::
      One(Holds(x, o)) - One(Holds(s.workers[w], o))
      == One(s.batch.value.lo <= o < TakenUpTo(t)) - One(s.batch.value.lo <= o < TakenUpTo(s))
    ensures ExactlyOnce(t)
  {
    forall o: nat
      ensures Held(t.workers, o) + Times(t.hist[t.batch.value.mark..], o) == One(t.batch.value.lo <= o < TakenUpTo(t))
    {
      UpdateCounts(s.workers, w, x, o);
    }
  }

  lemma FetchStartsExactlyOnce(log: seq<Entry>, cfg: Config, s: State, step: Step)
    requires InFlight(log, cfg, s) && Enabled(log, cfg, s, step) && step.Fetch?
    ensures ExactlyOnce(Next(log, cfg, s, step))
  {
    NoneOccupiedMeansFree(s.workers);
    forall o: nat ensures Held(s.workers, o) == 0 {
      AllFreeCounts(s.workers, o);
    }
  }

  lemma StepKeepsExactlyOnce(log: seq<Entry>, cfg: Config, s: State, step: Step)
    requires InFlight(log, cfg, s) && ExactlyOnce(s) && Enabled(log, cfg, s, step)
    ensures ExactlyOnce(Next(log, cfg, s, step))
  {
    var t := Next(log, cfg, s, step);
    match step
    case Fetch(_, _) => FetchStartsExactlyOnce(log, cfg, s, step);
    case Take(w) => WorkerChangeKeepsExactlyOnce(s, t, w, Busy(s.channel[0]));
    case Poisoned(w, _) => FinishKeepsExactlyOnce(s, w, FinishedWith(s, step));
    case Suppress(w) => FinishKeepsExactlyOnce(s, w, FinishedWith(s, step));
    case Clear(w) =>
      if s.batch.Some? {
        WorkerChangeKeepsExactlyOnce(s, t, w, Cleared(s.workers[w].o, s.snap));
      }
    case Publish(w, _, _) => FinishKeepsExactlyOnce(s, w, FinishedWith(s, step));
    case Done(w) => WorkerChangeKeepsExactlyOnce(s, t, w, Free);
    case _ =>
  }

  /** At the barrier every message of the batch has finished exactly once since the fetch, and no other has. */
  lemma BarrierMeansAllFinished(log: seq<Entry>, cfg: Config, s: State)
    requires InFlight(log, cfg, s) && ExactlyOnce(s) && BarrierOpen(s)
    ensures Occupied(s.workers) == 0 && s.channel == []
    ensures forall o: nat :: Times(s.hist[s.batch.value.mark..], o) == One(s.batch.value.lo <= o < s.batch.value.hi)
  {
    NoneOccupiedMeansFree(s.workers);
    forall o: nat ensures Held(s.workers, o) == 0 {
      AllFreeCounts(s.workers, o);
    }
  }

  // ---------- the failure flag ----------

  predicate BadEvent(e: Event) {
    e.Finished? && !Good(e.outcome)
  }

  /** The flag is up exactly when something of this batch failed. */
  ghost predicate FlagIsExact(s: State) {
    s.batch.Some? ==>
      var b := s.batch.value;
      b.failed <==> exists i :: b.mark <= i < |s.hist| && BadEvent(s.hist[i])
  }

  lemma StepKeepsFlag(log: seq<Entry>, cfg: Config, s: State, step: Step)
    requires InFlight(log, cfg, s) && FlagIsExact(s) && Enabled(log, cfg, s, step)
    ensures FlagIsExact(Next(log, cfg, s, step))
  {
    var t := Next(log, cfg, s, step);
    if s.batch.Some? && t.batch.Some? && t.hist != s.hist {
      var e := t.hist[|s.hist|];
      assert t.hist == s.hist + [e];
      assert t.batch.value.failed <==> s.batch.value.failed || BadEvent(e);
      if s.batch.value.failed {
        var i :| s.batch.value.mark <= i < |s.hist| && BadEvent(s.hist[i]);
        assert BadEvent(t.hist[i]);
      }
    }
  }

  // ---------- the history of offsets ----------

  /** Some attempt at `o` ended well: forwarded, suppressed or dead-lettered. */
  ghost predicate Settled(hist: seq<Event>, o: nat) {
    exists i :: 0 <= i < |hist| && hist[i].Finished? && hist[i].o == o && Good(hist[i].outcome)
  }

  ghost predicate FailedAt(hist: seq<Event>, i: int, o: nat) {
    0 <= i < |hist| && BadEvent(hist[i]) && hist[i].o == o
  }

  ghost predicate CommitAt(hist: seq<Event>, j: int, o: nat) {
    0 <= j < |hist| && hist[j].CommitTo? && o < hist[j].hi
  }

  ghost predicate NoCrashIn(hist: seq<Event>, i: int, j: int) {
    forall k :: 0 <= k < |hist| && i <= k < j ==> !hist[k].Crashed?
  }

  /** `o` failed and the same session later committed an offset beyond it. */
  ghost predicate CommittedPast(hist: seq<Event>, o: nat) {
    exists i, j :: i < j && FailedAt(hist, i, o) && CommitAt(hist, j, o) && NoCrashIn(hist, i, j)
  }

  ghost predicate GoodAt(hist: seq<Event>, i: int, o: nat) {
    0 <= i < |hist| && hist[i].Finished? && Good(hist[i].outcome) && hist[i].o == o
  }

  /** `o` ended well and the same session later committed an offset beyond it. */
  ghost predicate HandledThenCommitted(hist: seq<Event>, o: nat) {
    exists i, j :: i < j && GoodAt(hist, i, o) && CommitAt(hist, j, o) && NoCrashIn(hist, i, j)
  }

  lemma HistoryGrows(hist: seq<Event>, more: seq<Event>, o: nat)
    ensures HandledThenCommitted(hist, o) ==> HandledThenCommitted(hist + more, o)
    ensures CommittedPast(hist, o) ==> CommittedPast(hist + more, o)
  {
    var all := hist + more;
    if HandledThenCommitted(hist, o) {
      var i, j :| i < j && GoodAt(hist, i, o) && CommitAt(hist, j, o) && NoCrashIn(hist, i, j);
      assert GoodAt(all, i, o) && CommitAt(all, j, o) && NoCrashIn(all, i, j);
    }
    if CommittedPast(hist, o) {
      var i, j :| i < j && FailedAt(hist, i, o) && CommitAt(hist, j, o) && NoCrashIn(hist, i, j);
      assert FailedAt(all, i, o) && CommitAt(all, j, o) && NoCrashIn(all, i, j);
    }
  }

  /** Everything the session has dispatched and closed. */
  function ClosedUpTo(s: State): nat {
    if s.batch.Some? then s.batch.value.lo else s.fetch
  }

  /** The session has finished every offset of its closed batches, in the session. */
  ghost predicate SessionFinished(s: State) {
    && (forall k :: s.session <= k < |s.hist| ==> !s.hist[k].Crashed?)
    && (forall o: nat :: s.start <= o < ClosedUpTo(s) ==> FinishedSince(s.hist, s.session, o))
  }

  ghost predicate FinishedSince(hist: seq<Event>, from: nat, o: nat) {
    exists i :: from <= i < |hist| && hist[i].Finished? && hist[i].o == o
  }

  /** Below the committed offset everything was handled or committed past, and no commit lies beyond it. */
  ghost predicate Accounted(s: State) {
    && (forall o: nat :: o < s.committed ==> HandledThenCommitted(s.hist, o) || CommittedPast(s.hist, o))
    && (forall j :: 0 <= j < |s.hist| && s.hist[j].CommitTo? ==> s.hist[j].hi <= s.committed)
  }

  lemma FinishedSinceGrows(hist: seq<Event>, from: nat, more: seq<Event>, o: nat)
    requires FinishedSince(hist, from, o)
    ensures FinishedSince(hist + more, from, o)
  {
    var i :| from <= i < |hist| && hist[i].Finished? && hist[i].o == o;
    assert (hist + more)[i] == hist[i];
  }

  lemma BatchIsFinished(log: seq<Entry>, cfg: Config, s: State, o: nat)
    requires InFlight(log, cfg, s) && ExactlyOnce(s) && BarrierOpen(s)
    requires s.batch.value.lo <= o < s.batch.value.hi
    ensures FinishedSince(s.hist, s.batch.value.mark, o)
  {
    BarrierMeansAllFinished(log, cfg, s);
    var mark := s.batch.value.mark;
    TimesMeansFinished(s.hist[mark..], o);
    var i :| 0 <= i < |s.hist[mark..]| && s.hist[mark..][i].Finished? && s.hist[mark..][i].o == o;
    assert s.hist[mark + i] == s.hist[mark..][i];
  }

  lemma StepKeepsSession(log: seq<Entry>, cfg: Config, s: State, step: Step)
    requires InFlight(log, cfg, s) && ExactlyOnce(s) && SessionFinished(s) && Enabled(log, cfg, s, step)
    ensures SessionFinished(Next(log, cfg, s, step))
  {
    var t := Next(log, cfg, s, step);
    if !step.Crash? {
      var more := t.hist[|s.hist|..];
      assert t.hist == s.hist + more;
      forall o: nat | t.start <= o < ClosedUpTo(t) ensures FinishedSince(t.hist, t.session, o) {
        if o >= ClosedUpTo(s) {
          BatchIsFinished(log, cfg, s, o);
        }
        FinishedSinceGrows(s.hist, s.session, more, o);
      }
    }
  }

  /** A landed commit settles its own batch and passes what failed earlier in the session. */
  lemma CommitKeepsAccounts(log: seq<Entry>, cfg: Config, s: State, o: nat)
    requires InFlight(log, cfg, s) && ExactlyOnce(s) && FlagIsExact(s) && SessionFinished(s) && Accounted(s)
    requires BarrierOpen(s) && !s.batch.value.failed && o < s.batch.value.hi
    ensures var hist := s.hist + [CommitTo(s.batch.value.hi)]; HandledThenCommitted(hist, o) || CommittedPast(hist, o)
  {
    var b, hist := s.batch.value, s.hist + [CommitTo(s.batch.value.hi)];
    HistoryGrows(s.hist, [CommitTo(b.hi)], o);
    if o >= s.committed {
      if o >= b.lo {
        BatchIsFinished(log, cfg, s, o);
      }
      assert FinishedSince(s.hist, s.session, o);
      var i :| s.session <= i < |s.hist| && s.hist[i].Finished? && s.hist[i].o == o;
      assert hist[i] == s.hist[i];
      assert CommitAt(hist, |s.hist|, o) && NoCrashIn(hist, i, |s.hist|);
      assert GoodAt(hist, i, o) || FailedAt(hist, i, o);
    }
  }

  lemma StepKeepsAccounts(log: seq<Entry>, cfg: Config, s: State, step: Step)
    requires InFlight(log, cfg, s) && ExactlyOnce(s) && FlagIsExact(s) && SessionFinished(s) && Accounted(s)
    requires Enabled(log, cfg, s, step)
    ensures Accounted(Next(log, cfg, s, step))
  {
    var t := Next(log, cfg, s, step);
    var more := t.hist[|s.hist|..];
    assert t.hist == s.hist + more;
    forall o: nat | o < t.committed ensures HandledThenCommitted(t.hist, o) || CommittedPast(t.hist, o) {
      if step.Barrier? && t.hist != s.hist {
        CommitKeepsAccounts(log, cfg, s, o);
      } else {
        HistoryGrows(s.hist, more, o);
      }
    }
  }

  // ---------- batches in order ----------

  /** What the session finished before the current batch lies below it. */
  ghost predicate BatchesInOrder(s: State) {
    var end := if s.batch.Some? then s.batch.value.mark else |s.hist|;
    forall i :: 0 <= i < |s.hist| && s.session <= i < end && s.hist[i].Finished? ==> s.hist[i].o < ClosedUpTo(s)
  }

  lemma FinishedSinceMarkIsInBatch(log: seq<Entry>, cfg: Config, s: State, i: nat)
    requires InFlight(log, cfg, s) && ExactlyOnce(s) && s.batch.Some?
    requires s.batch.value.mark <= i < |s.hist| && s.hist[i].Finished?
    ensures s.batch.value.lo <= s.hist[i].o < s.batch.value.hi
  {
    var since, o := s.hist[s.batch.value.mark..], s.hist[i].o;
    assert since[i - s.batch.value.mark] == s.hist[i];
    TimesMeansFinished(since, o);
    assert Held(s.workers, o) + Times(since, o) == One(s.batch.value.lo <= o < TakenUpTo(s));
  }

  lemma StepKeepsBatchesInOrder(log: seq<Entry>, cfg: Config, s: State, step: Step)
    requires InFlight(log, cfg, s) && ExactlyOnce(s) && BatchesInOrder(s) && Enabled(log, cfg, s, step)
    ensures BatchesInOrder(Next(log, cfg, s, step))
  {
    if step.Barrier? {
      forall i | s.batch.value.mark <= i < |s.hist| && s.hist[i].Finished? ensures s.hist[i].o < s.fetch {
        FinishedSinceMarkIsInBatch(log, cfg, s, i);
      }
    }
  }

  // ---------- once per session ----------

  /** After a commit only offsets from there on finish. */
  ghost predicate NothingBelowACommit(hist: seq<Event>) {
    forall j, i :: 0 <= j < i < |hist| && hist[j].CommitTo? && hist[i].Finished? ==> hist[j].hi <= hist[i].o
  }

  /** Between two crashes no offset finishes twice. */
  ghost predicate OncePerSession(hist: seq<Event>) {
    forall i, j :: 0 <= i < j < |hist| && hist[i].Finished? && hist[j].Finished? && hist[i].o == hist[j].o ==>
      !NoCrashIn(hist, i, j)
  }

  ghost predicate EventsInOrder(s: State) {
    && NothingBelowACommit(s.hist) && OncePerSession(s.hist)
    && s.session <= |s.hist| && (s.session > 0 ==> s.hist[s.session - 1].Crashed?)
  }

  /** What a worker holds lies in the batch and has not finished in this session. */
  lemma HeldOffsetIsNew(log: seq<Entry>, cfg: Config, s: State, w: nat)
    requires InFlight(log, cfg, s) && ExactlyOnce(s) && BatchesInOrder(s) && s.batch.Some?
    requires w < |s.workers| && (s.workers[w].Busy? || s.workers[w].Cleared?)
    ensures s.batch.value.lo <= s.workers[w].o < s.batch.value.hi
    ensures !FinishedSince(s.hist, s.session, s.workers[w].o)
  {
    var b, o := s.batch.value, s.workers[w].o;
    HolderIsCounted(s.workers, w);
    assert Held(s.workers, o) + Times(s.hist[b.mark..], o) == One(b.lo <= o < TakenUpTo(s));
    TimesMeansFinished(s.hist[b.mark..], o);
    assert forall i :: b.mark <= i < |s.hist| ==> s.hist[i] == s.hist[b.mark..][i - b.mark];
  }

  lemma FinishKeepsEvents(log: seq<Entry>, cfg: Config, s: State, w: nat, e: Event, t: State)
    requires InFlight(log, cfg, s) && ExactlyOnce(s) && BatchesInOrder(s) && Accounted(s) && EventsInOrder(s)
    requires s.batch.Some? && w < |s.workers| && (s.workers[w].Busy? || s.workers[w].Cleared?)
    requires e.Finished? && e.o == s.workers[w].o && t.hist == s.hist + [e] && t.session == s.session
    ensures EventsInOrder(t)
  {
    HeldOffsetIsNew(log, cfg, s, w);
    var n := |s.hist|;
    forall i, j | 0 <= i < j < |t.hist| && t.hist[i].Finished? && t.hist[j].Finished? && t.hist[i].o == t.hist[j].o
      ensures !NoCrashIn(t.hist, i, j)
    {
      if j < n {
        CrashStays(s.hist, e, i, j);
      } else {
        assert i < s.session;
        assert t.hist[s.session - 1].Crashed?;
      }
    }
  }

  lemma StepKeepsEvents(log: seq<Entry>, cfg: Config, s: State, step: Step)
    requires InFlight(log, cfg, s) && ExactlyOnce(s) && BatchesInOrder(s) && Accounted(s) && EventsInOrder(s)
    requires Enabled(log, cfg, s, step)
    ensures EventsInOrder(Next(log, cfg, s, step))
  {
    var t := Next(log, cfg, s, step);
    if step.Poisoned? || step.Suppress? || step.Publish? {
      FinishKeepsEvents(log, cfg, s, step.w, Finished(s.workers[step.w].o, FinishedWith(s, step)), t);
    } else if t.hist != s.hist {
      OtherEventKeepsOrder(s.hist, t.hist[|s.hist|]);
    }
  }

  lemma OtherEventKeepsOrder(hist: seq<Event>, e: Event)
    requires NothingBelowACommit(hist) && OncePerSession(hist) && !e.Finished?
    ensures NothingBelowACommit(hist + [e]) && OncePerSession(hist + [e])
  {
    var all := hist + [e];
    forall i, j | 0 <= i < j < |all| && all[i].Finished? && all[j].Finished? && all[i].o == all[j].o
      ensures !NoCrashIn(all, i, j)
    {
      CrashStays(hist, e, i, j);
    }
  }

  lemma CrashStays(hist: seq<Event>, e: Event, i: int, j: int)
    requires 0 <= i < j < |hist| && !NoCrashIn(hist, i, j)
    ensures !NoCrashIn(hist + [e], i, j)
  {
    var k :| i <= k < j && hist[k].Crashed?;
    assert (hist + [e])[k] == hist[k];
  }

  /** The two ways of being committed exclude each other. */
  lemma OneFate(hist: seq<Event>, o: nat)
    requires NothingBelowACommit(hist) && OncePerSession(hist)
    ensures !(HandledThenCommitted(hist, o) && CommittedPast(hist, o))
  {
    if HandledThenCommitted(hist, o) && CommittedPast(hist, o) {
      var g, c :| g < c && GoodAt(hist, g, o) && CommitAt(hist, c, o) && NoCrashIn(hist, g, c);
      var b, d :| b < d && FailedAt(hist, b, o) && CommitAt(hist, d, o) && NoCrashIn(hist, b, d);
      if g < b {
        assert NoCrashIn(hist, g, b);
      } else {
        assert NoCrashIn(hist, b, g);
      }
      assert false;
    }
  }

  // ---------- what reached the topic ----------

  predicate Publishes(x: Outcome) {
    x.Published? || x.PublishFailed?
  }

  /** What landed are flights of the message, each once and in order, and all of them if it was reported so. */
  ghost predicate LandingsAreProper(log: seq<Entry>, hist: seq<Event>) {
    forall i :: 0 <= i < |hist| && hist[i].Finished? && Publishes(hist[i].outcome) ==>
      && hist[i].o < |log| && SomeOf(hist[i].outcome.landed, FlightsIn(log[hist[i].o]))
      && (hist[i].outcome.Published? ==> hist[i].outcome.landed == AllOf(FlightsIn(log[hist[i].o])))
  }

  lemma StepKeepsLandings(log: seq<Entry>, cfg: Config, s: State, step: Step)
    requires LandingsAreProper(log, s.hist) && Enabled(log, cfg, s, step)
    ensures LandingsAreProper(log, Next(log, cfg, s, step).hist)
  {
  }

  // ---------- counters and the block list ----------

  ghost predicate CountersBalance(s: State) {
    s.stats.taken == s.stats.parseErrors + s.stats.suppressed + s.stats.published + s.stats.publishErrors
                     + Inside(s.workers)
  }

  lemma StepKeepsCounters(log: seq<Entry>, cfg: Config, s: State, step: Step)
    requires CountersBalance(s) && Enabled(log, cfg, s, step)
    ensures CountersBalance(Next(log, cfg, s, step))
  {
    match step
    case Take(w) => UpdateCounts(s.workers, w, Busy(s.channel[0]), 0);
    case Poisoned(w, _) => UpdateCounts(s.workers, w, Returned(s.workers[w].o), 0);
    case Suppress(w) => UpdateCounts(s.workers, w, Returned(s.workers[w].o), 0);
    case Clear(w) => UpdateCounts(s.workers, w, Cleared(s.workers[w].o, s.snap), 0);
    case Publish(w, _, _) => UpdateCounts(s.workers, w, Returned(s.workers[w].o), 0);
    case Done(w) => UpdateCounts(s.workers, w, Free, 0);
    case Crash(_) => AllFreeCounts(seq(|s.workers|, _ => Free), 0);
    case _ =>
  }

  /** How many messages of a history ended in one of these ways. */
  function Tally(es: seq<Event>, kind: Outcome -> bool): nat {
    if es == [] then 0
    else Tally(es[..|es| - 1], kind) + One(es[|es| - 1].Finished? && kind(es[|es| - 1].outcome))
  }

  lemma TallySnoc(es: seq<Event>, from: nat, e: Event, kind: Outcome -> bool)
    requires from <= |es|
    ensures Tally((es + [e])[from..], kind) == Tally(es[from..], kind) + One(e.Finished? && kind(e.outcome))
  {
    assert (es + [e])[from..] == es[from..] + [e];
    assert (es[from..] + [e])[..|es[from..]|] == es[from..];
  }

  predicate IsParseError(x: Outcome) {
    x.DeadLettered? || x.DeadLetterFailed?
  }

  predicate IsSuppressed(x: Outcome) {
    x.Suppressed?
  }

  predicate IsPublished(x: Outcome) {
    x.Published?
  }

  predicate IsPublishError(x: Outcome) {
    x.PublishFailed?
  }

  /** Each counter is the number of messages of the session that ended that way. */
  ghost predicate CountersAreExact(s: State) {
    s.session <= |s.hist| &&
    var es := s.hist[s.session..];
    && s.stats.parseErrors == Tally(es, IsParseError) && s.stats.suppressed == Tally(es, IsSuppressed)
    && s.stats.published == Tally(es, IsPublished) && s.stats.publishErrors == Tally(es, IsPublishError)
  }

  lemma EventIsTallied(s: State, e: Event, t: State)
    requires CountersAreExact(s) && t.hist == s.hist + [e] && t.session == s.session
    requires t.stats.parseErrors == s.stats.parseErrors + One(e.Finished? && IsParseError(e.outcome))
    requires t.stats.suppressed == s.stats.suppressed + One(e.Finished? && IsSuppressed(e.outcome))
    requires t.stats.published == s.stats.published + One(e.Finished? && IsPublished(e.outcome))
    requires t.stats.publishErrors == s.stats.publishErrors + One(e.Finished? && IsPublishError(e.outcome))
    ensures CountersAreExact(t)
  {
    TallySnoc(s.hist, s.session, e, IsParseError);
    TallySnoc(s.hist, s.session, e, IsSuppressed);
    TallySnoc(s.hist, s.session, e, IsPublished);
    TallySnoc(s.hist, s.session, e, IsPublishError);
  }

  lemma StepKeepsTallies(log: seq<Entry>, cfg: Config, s: State, step: Step)
    requires CountersAreExact(s) && Enabled(log, cfg, s, step)
    ensures CountersAreExact(Next(log, cfg, s, step))
  {
    var t := Next(log, cfg, s, step);
    if step.Crash? {
      assert t.hist[t.session..] == [];
    } else if t.hist != s.hist {
      EventIsTallied(s, t.hist[|s.hist|], t);
    }
  }

  /** A message cleared against `seen` in a batch gated on `gate`. */
  ghost predicate ProperlyCleared(log: seq<Entry>, o: nat, seen: Snapshot, gate: Gate) {
    o < |log| && seen.date >= gate.list.date && !log[o].Poison? && !Suppresses(seen, log[o])
  }

  /** The outcome is the one the message calls for, given the list that was looked up. */
  ghost predicate OutcomeFits(log: seq<Entry>, o: nat, outcome: Outcome) {
    o < |log| &&
    match outcome
    case DeadLettered => log[o].Poison?
    case DeadLetterFailed => log[o].Poison?
    case Suppressed(seen, gate) => seen.date >= gate.list.date && !log[o].Poison? && Suppresses(seen, log[o])
    case Published(_, seen, gate) => ProperlyCleared(log, o, seen, gate)
    case PublishFailed(_, seen, gate) => ProperlyCleared(log, o, seen, gate)
  }

  /** Every lookup used a list at least as new as its batch's gate, and the outcome follows from it. */
  ghost predicate ListsAreFresh(log: seq<Entry>, s: State) {
    && (s.batch.Some? ==> s.snap.date >= s.batch.value.gate.list.date)
    && (forall w :: 0 <= w < |s.workers| && s.workers[w].Cleared? ==>
         s.batch.Some? && ProperlyCleared(log, s.workers[w].o, s.workers[w].seen, s.batch.value.gate))
    && (forall i :: 0 <= i < |s.hist| && s.hist[i].Finished? ==> OutcomeFits(log, s.hist[i].o, s.hist[i].outcome))
  }

  lemma StepKeepsLists(log: seq<Entry>, cfg: Config, s: State, step: Step)
    requires InFlight(log, cfg, s) && ListsAreFresh(log, s) && Enabled(log, cfg, s, step)
    ensures ListsAreFresh(log, Next(log, cfg, s, step))
  {
    if step.Clear? && s.batch.None? {
      NoneOccupiedMeansFree(s.workers);
    }
    if step.Barrier? {
      assert Occupied(s.workers) == 0;
      NoneOccupiedMeansFree(s.workers);
    }
  }

  ghost predicate LoadedOrNothing(snap: Snapshot) {
    snap == NOTHING_LOADED || LaddStore.IsFileLoad(snap)
  }

  /** The list was loaded from a file, and for the filter it had passed the readiness check. */
  ghost predicate GateWasOpen(cfg: Config, gate: Gate) {
    LoadedOrNothing(gate.list) && (cfg.gated ==> Ready(gate.list, cfg.maxAge, gate.at))
  }

  predicate LooksUp(x: Outcome) {
    x.Suppressed? || Publishes(x)
  }

  /** Every list in use is one file's lines with that file's date, and every batch passed its gate. */
  ghost predicate ListsAreLoads(cfg: Config, s: State) {
    && LoadedOrNothing(s.snap)
    && (s.batch.Some? ==> GateWasOpen(cfg, s.batch.value.gate))
    && (forall w :: 0 <= w < |s.workers| && s.workers[w].Cleared? ==> LoadedOrNothing(s.workers[w].seen))
    && (forall i :: 0 <= i < |s.hist| && s.hist[i].Finished? && LooksUp(s.hist[i].outcome) ==>
         LoadedOrNothing(s.hist[i].outcome.seen) && GateWasOpen(cfg, s.hist[i].outcome.gate))
  }

  lemma StartIsLoad(file: Option<LaddStore.ListFile>)
    ensures LoadedOrNothing(Start(file))
  {
  }

  lemma StepKeepsLoads(log: seq<Entry>, cfg: Config, s: State, step: Step)
    requires ListsAreLoads(cfg, s) && Enabled(log, cfg, s, step)
    ensures ListsAreLoads(cfg, Next(log, cfg, s, step))
  {
    if step.Crash? {
      StartIsLoad(step.found);
    }
  }

  // ---------- every run ----------

  ghost predicate Invariant(log: seq<Entry>, cfg: Config, s: State) {
    && InFlight(log, cfg, s) && ExactlyOnce(s) && FlagIsExact(s) && SessionFinished(s) && Accounted(s)
    && BatchesInOrder(s) && EventsInOrder(s) && LandingsAreProper(log, s.hist)
    && CountersBalance(s) && CountersAreExact(s) && ListsAreFresh(log, s) && ListsAreLoads(cfg, s)
  }

  lemma {:induction false} EveryRunKeepsTheInvariant(
    log: seq<Entry>, cfg: Config, file: Option<LaddStore.ListFile>, steps: seq<Step>, s: State)
    requires After(log, cfg, Init(cfg, file), steps) == Some(s)
    ensures Invariant(log, cfg, s)
  {
    if steps == [] {
      AllFreeCounts(s.workers, 0);
      StartIsLoad(file);
    } else {
      var n := |steps| - 1;
      var mid := After(log, cfg, Init(cfg, file), steps[..n]).value;
      EveryRunKeepsTheInvariant(log, cfg, file, steps[..n], mid);
      StepKeepsInFlight(log, cfg, mid, steps[n]);
      StepKeepsExactlyOnce(log, cfg, mid, steps[n]);
      StepKeepsFlag(log, cfg, mid, steps[n]);
      StepKeepsSession(log, cfg, mid, steps[n]);
      StepKeepsAccounts(log, cfg, mid, steps[n]);
      StepKeepsBatchesInOrder(log, cfg, mid, steps[n]);
      StepKeepsEvents(log, cfg, mid, steps[n]);
      StepKeepsLandings(log, cfg, mid, steps[n]);
      StepKeepsCounters(log, cfg, mid, steps[n]);
      StepKeepsTallies(log, cfg, mid, steps[n]);
      StepKeepsLists(log, cfg, mid, steps[n]);
      StepKeepsLoads(log, cfg, mid, steps[n]);
    }
  }
}
