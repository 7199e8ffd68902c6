/**
 The cache-writer's loop: fetch a message, process it, commit it if that went well, and go on either
 way. A group that has never committed starts at the end of the topic, again after every restart.
 */
module CacheLoop {
  import opened Sql
  import opened LaddList
  import opened WorkerPool
  import opened RedisView
  import opened CacheWriter

  /** A message that reached the store, with its offset. */
  datatype Seen = Seen(o: nat, a: Applied)

  /**
   `committed` is the group's offset, absent until a first commit lands; `base` is where the reading
   that led to it began. The last two components are history.
   */
  datatype LoopState = LoopState(committed: Option<nat>, fetch: nat, base: nat, hist: seq<Event>, seen: seq<Seen>)

  datatype LoopStep =
    | Handle(now: int, fault: Fault, quarantined: bool, lands: bool)
    | Reopen(end: nat)

  const NO_LIST := Gate(NOTHING_LOADED, 0)

  /** How processing turns out; a write that is reported failed may have reached the store. */
  function Processed(m: Message, fault: Fault, quarantined: bool): (outcome: Outcome)
    ensures Good(outcome) == Commits(m, fault, quarantined)
  {
    if m.Poison? then (if quarantined then DeadLettered else DeadLetterFailed)
    else if Commits(m, fault, quarantined) then Published([0], NOTHING_LOADED, NO_LIST)
    else PublishFailed(if fault == NotApplied then [] else [0], NOTHING_LOADED, NO_LIST)
  }

  function Handled(m: Message, s: LoopState, now: int, fault: Fault, quarantined: bool, lands: bool): LoopState {
    var done := s.hist + [Finished(s.fetch, Processed(m, fault, quarantined))];
    var commits := Commits(m, fault, quarantined) && lands;
    LoopState(
      if commits then Some(s.fetch + 1) else s.committed,
      s.fetch + 1,
      s.base,
      if commits then done + [CommitTo(s.fetch + 1)] else done,
      if m.Parsed? && Reaches(m.flight, fault) then s.seen + [Seen(s.fetch, Applied(m.flight, now))] else s.seen)
  }

  function Reopened(s: LoopState, end: nat): LoopState {
    if s.committed.Some? then s.(fetch := s.committed.value, hist := s.hist + [Crashed])
    else s.(fetch := end, base := end, hist := s.hist + [Crashed])
  }

  function LoopNext(log: seq<Message>, s: LoopState, step: LoopStep): Option<LoopState> {
    match step
    case Handle(now, fault, quarantined, lands) =>
      if s.fetch < |log| then Some(Handled(log[s.fetch], s, now, fault, quarantined, lands)) else None
    case Reopen(end) =>
      if s.committed.Some? || s.fetch <= end <= |log| then Some(Reopened(s, end)) else None
  }

  function Opened(committed: Option<nat>, start: nat): LoopState {
    LoopState(committed, start, start, [], [])
  }

  function LoopAfter(log: seq<Message>, s: LoopState, steps: seq<LoopStep>): Option<LoopState> {
    if steps == [] then Some(s)
    else
      var before := LoopAfter(log, s, steps[..|steps| - 1]);
      if before.None? then None else LoopNext(log, before.value, steps[|steps| - 1])
  }

  /** What has reached the store, in order. */
  function History(s: LoopState): seq<Applied> {
    seq(|s.seen|, i requires 0 <= i < |s.seen| => s.seen[i].a)
  }

  /** One turn of the loop as the source runs it. */
  method Turn(cache: Cache, log: seq<Message>, s: LoopState, now: int, fault: Fault, quarantined: bool, lands: bool)
    returns (t: LoopState)
    requires s.fetch < |log| && cache.Valid() && cache.history == History(s)
    modifies cache
    ensures LoopNext(log, s, Handle(now, fault, quarantined, lands)) == Some(t)
    ensures cache.Valid() && cache.history == History(t)
  {
    var m := log[s.fetch];
    var commit := cache.Process(m, now, fault, quarantined);
    t := Advance(s, m, now, fault, quarantined, commit, lands);
    SeenGrows(s, m, now, fault, quarantined, lands);
    if !(m.Parsed? && Reaches(m.flight, fault)) {
      assert History(s) + [] == History(s);
    }
  }

  /** The offset side of a turn: on to the next message, and a commit if processing went well. */
  method Advance(s: LoopState, m: Message, now: int, fault: Fault, quarantined: bool, commit: bool, lands: bool)
    returns (t: LoopState)
    requires commit == Commits(m, fault, quarantined)
    ensures t == Handled(m, s, now, fault, quarantined, lands)
  {
    var done := s.hist + [Finished(s.fetch, Processed(m, fault, quarantined))];
    var seen := s.seen;
    if m.Parsed? && Reaches(m.flight, fault) {
      seen := seen + [Seen(s.fetch, Applied(m.flight, now))];
    }
    if commit && lands {
      t := LoopState(Some(s.fetch + 1), s.fetch + 1, s.base, done + [CommitTo(s.fetch + 1)], seen);
    } else {
      t := LoopState(s.committed, s.fetch + 1, s.base, done, seen);
    }
  }

  lemma SeenGrows(s: LoopState, m: Message, now: int, fault: Fault, quarantined: bool, lands: bool)
    ensures History(Handled(m, s, now, fault, quarantined, lands))
         == History(s) + if m.Parsed? && Reaches(m.flight, fault) then [Applied(m.flight, now)] else []
  {
  }

  // ---------- offsets ----------

  ghost predicate FinishedNow(hist: seq<Event>, i: int, o: nat) {
    0 <= i < |hist| && hist[i].Finished? && hist[i].o == o && NoCrashIn(hist, i, |hist|)
  }

  ghost predicate FinishedInSession(hist: seq<Event>, o: nat) {
    exists i :: FinishedNow(hist, i, o)
  }

  /** Where the session stands: what it has finished, and what has ever been committed. */
  ghost predicate SessionInOrder(s: LoopState) {
    && s.base <= s.fetch && (s.committed.Some? ==> s.base <= s.committed.value <= s.fetch)
    && (forall i, o: nat :: FinishedNow(s.hist, i, o) ==> s.base <= o < s.fetch)
    && (forall o: nat {:trigger FinishedInSession(s.hist, o)} ::
          s.base <= o < s.fetch && (s.committed.Some? ==> s.committed.value <= o) ==>
          FinishedInSession(s.hist, o))
    && (forall j :: 0 <= j < |s.hist| && s.hist[j].CommitTo? ==>
          s.committed.Some? && s.hist[j].hi <= s.committed.value)
  }

  ghost predicate Fated(hist: seq<Event>, o: nat) {
    HandledThenCommitted(hist, o) || CommittedPast(hist, o)
  }

  ghost predicate FatesKnown(s: LoopState) {
    forall o: nat :: Fated(s.hist, o) <==> s.committed.Some? && s.base <= o < s.committed.value
  }

  ghost predicate LoopInvariant(s: LoopState) {
    SessionInOrder(s) && NothingBelowACommit(s.hist) && OncePerSession(s.hist) && FatesKnown(s)
  }

  /** A finished message of this session is finished in the longer history too, unless a crash comes. */
  lemma StillFinished(hist: seq<Event>, e: Event, i: int, o: nat)
    requires !e.Crashed?
    ensures FinishedNow(hist, i, o) ==> FinishedNow(hist + [e], i, o)
    ensures FinishedNow(hist + [e], i, o) && i < |hist| ==> FinishedNow(hist, i, o)
  {
    var all := hist + [e];
    assert forall k :: 0 <= k < |hist| ==> all[k] == hist[k];
  }

  lemma FinishKeepsSession(s: LoopState, outcome: Outcome, t: LoopState)
    requires SessionInOrder(s)
    requires t == s.(fetch := s.fetch + 1, hist := s.hist + [Finished(s.fetch, outcome)], seen := t.seen)
    ensures SessionInOrder(t)
  {
    var e, n := Finished(s.fetch, outcome), |s.hist|;
    forall i, o: nat | FinishedNow(t.hist, i, o) ensures t.base <= o < t.fetch {
      StillFinished(s.hist, e, i, o);
    }
    forall o: nat {:trigger FinishedInSession(t.hist, o)} |
      t.base <= o < t.fetch && (t.committed.Some? ==> t.committed.value <= o)
      ensures FinishedInSession(t.hist, o)
    {
      if o == s.fetch {
        assert FinishedNow(t.hist, n, o);
      } else {
        assert FinishedInSession(s.hist, o);
        var i :| FinishedNow(s.hist, i, o);
        StillFinished(s.hist, e, i, o);
      }
    }
  }

  lemma CommitKeepsSession(s: LoopState, t: LoopState)
    requires SessionInOrder(s)
    requires t == s.(committed := Some(s.fetch), hist := s.hist + [CommitTo(s.fetch)])
    ensures SessionInOrder(t)
  {
    forall i, o: nat | FinishedNow(t.hist, i, o) ensures t.base <= o < t.fetch {
      StillFinished(s.hist, CommitTo(s.fetch), i, o);
    }
  }

  lemma ReopenKeepsSession(s: LoopState, end: nat)
    requires SessionInOrder(s) && (s.committed.None? ==> s.fetch <= end)
    ensures SessionInOrder(Reopened(s, end))
  {
    var t := Reopened(s, end);
    forall i, o: nat ensures !FinishedNow(t.hist, i, o) {
      assert t.hist[|s.hist|].Crashed?;
    }
  }

  // ---------- order of events ----------

  lemma NoCrashBefore(hist: seq<Event>, e: Event, i: int, j: int)
    requires j <= |hist|
    ensures NoCrashIn(hist + [e], i, j) <==> NoCrashIn(hist, i, j)
  {
    var all := hist + [e];
    assert forall k :: 0 <= k < |hist| ==> all[k] == hist[k];
    assert forall k :: 0 <= k < |hist| ==> hist[k] == all[k];
  }

  lemma FinishKeepsEvents(s: LoopState, outcome: Outcome)
    requires SessionInOrder(s) && NothingBelowACommit(s.hist) && OncePerSession(s.hist)
    ensures var hist := s.hist + [Finished(s.fetch, outcome)]; NothingBelowACommit(hist) && OncePerSession(hist)
  {
    var e, n := Finished(s.fetch, outcome), |s.hist|;
    var hist := s.hist + [e];
    forall i, j | 0 <= i < j < |hist| && hist[i].Finished? && hist[j].Finished? && hist[i].o == hist[j].o
      ensures !NoCrashIn(hist, i, j)
    {
      if j < n {
        CrashStays(s.hist, e, i, j);
      } else {
        NoCrashBefore(s.hist, e, i, n);
        assert !FinishedNow(s.hist, i, s.fetch);
      }
    }
  }

  // ---------- fates ----------

  /** What is fated in the longer history was so before, or is settled by a commit that has just come. */
  lemma NewFates(hist: seq<Event>, e: Event, o: nat)
    requires Fated(hist + [e], o)
    ensures Fated(hist, o) || (e.CommitTo? && o < e.hi && FinishedInSession(hist, o))
  {
    var all := hist + [e];
    if HandledThenCommitted(all, o) {
      var i, j :| i < j && GoodAt(all, i, o) && CommitAt(all, j, o) && NoCrashIn(all, i, j);
      NoCrashBefore(hist, e, i, j);
      if j < |hist| {
        assert GoodAt(hist, i, o) && CommitAt(hist, j, o);
      } else {
        assert FinishedNow(hist, i, o);
      }
    } else {
      var i, j :| i < j && FailedAt(all, i, o) && CommitAt(all, j, o) && NoCrashIn(all, i, j);
      NoCrashBefore(hist, e, i, j);
      if j < |hist| {
        assert FailedAt(hist, i, o) && CommitAt(hist, j, o);
      } else {
        assert FinishedNow(hist, i, o);
      }
    }
  }

  lemma QuietEventKeepsFates(hist: seq<Event>, e: Event, o: nat)
    requires !e.CommitTo?
    ensures Fated(hist + [e], o) <==> Fated(hist, o)
  {
    HistoryGrows(hist, [e], o);
    if Fated(hist + [e], o) {
      NewFates(hist, e, o);
    }
  }

  lemma FinishedThenCommitted(hist: seq<Event>, hi: nat, i: int, o: nat)
    requires FinishedNow(hist, i, o) && o < hi
    ensures Fated(hist + [CommitTo(hi)], o)
  {
    var all := hist + [CommitTo(hi)];
    assert CommitAt(all, |hist|, o) && NoCrashIn(all, i, |hist|);
    assert GoodAt(all, i, o) || FailedAt(all, i, o);
  }

  lemma CommitSettlesFates(s: LoopState, t: LoopState)
    requires SessionInOrder(s) && FatesKnown(s)
    requires t == s.(committed := Some(s.fetch), hist := s.hist + [CommitTo(s.fetch)])
    ensures FatesKnown(t)
  {
    forall o: nat ensures Fated(t.hist, o) <==> s.base <= o < s.fetch {
      if Fated(t.hist, o) {
        NewFates(s.hist, CommitTo(s.fetch), o);
      }
      if Fated(s.hist, o) {
        HistoryGrows(s.hist, [CommitTo(s.fetch)], o);
      } else if s.base <= o < s.fetch {
        assert FinishedInSession(s.hist, o);
        var i :| FinishedNow(s.hist, i, o);
        FinishedThenCommitted(s.hist, s.fetch, i, o);
      }
    }
  }

  // ---------- every run ----------

  lemma FinishKeepsInvariant(s: LoopState, outcome: Outcome, t: LoopState)
    requires LoopInvariant(s)
    requires t == s.(fetch := s.fetch + 1, hist := s.hist + [Finished(s.fetch, outcome)], seen := t.seen)
    ensures LoopInvariant(t)
  {
    FinishKeepsSession(s, outcome, t);
    FinishKeepsEvents(s, outcome);
    forall o: nat ensures Fated(t.hist, o) <==> Fated(s.hist, o) {
      QuietEventKeepsFates(s.hist, Finished(s.fetch, outcome), o);
    }
  }

  lemma CommitKeepsInvariant(s: LoopState, t: LoopState)
    requires LoopInvariant(s)
    requires t == s.(committed := Some(s.fetch), hist := s.hist + [CommitTo(s.fetch)])
    ensures LoopInvariant(t)
  {
    CommitKeepsSession(s, t);
    OtherEventKeepsOrder(s.hist, CommitTo(s.fetch));
    CommitSettlesFates(s, t);
  }

  lemma ReopenKeepsInvariant(s: LoopState, end: nat)
    requires LoopInvariant(s) && (s.committed.None? ==> s.fetch <= end)
    ensures LoopInvariant(Reopened(s, end))
  {
    ReopenKeepsSession(s, end);
    OtherEventKeepsOrder(s.hist, Crashed);
    forall o: nat ensures Fated(s.hist + [Crashed], o) <==> Fated(s.hist, o) {
      QuietEventKeepsFates(s.hist, Crashed, o);
    }
  }

  lemma StepKeepsInvariant(log: seq<Message>, s: LoopState, step: LoopStep)
    requires LoopInvariant(s) && LoopNext(log, s, step).Some?
    ensures LoopInvariant(LoopNext(log, s, step).value)
  {
    var t := LoopNext(log, s, step).value;
    match step
    case Handle(now, fault, quarantined, lands) =>
      var outcome := Processed(log[s.fetch], fault, quarantined);
      var mid := s.(fetch := s.fetch + 1, hist := s.hist + [Finished(s.fetch, outcome)], seen := t.seen);
      FinishKeepsInvariant(s, outcome, mid);
      if Commits(log[s.fetch], fault, quarantined) && lands {
        CommitKeepsInvariant(mid, t);
      }
    case Reopen(end) => ReopenKeepsInvariant(s, end);
  }

  lemma {:induction false} EveryLoopRunKeepsTheInvariant(
    log: seq<Message>, committed: Option<nat>, start: nat, steps: seq<LoopStep>, s: LoopState)
    requires committed.Some? ==> committed.value == start
    requires LoopAfter(log, Opened(committed, start), steps) == Some(s)
    ensures LoopInvariant(s)
  {
    if steps == [] {
      assert s == Opened(committed, start);
    } else {
      var n := |steps| - 1;
      var mid := LoopAfter(log, Opened(committed, start), steps[..n]).value;
      EveryLoopRunKeepsTheInvariant(log, committed, start, steps[..n], mid);
      StepKeepsInvariant(log, mid, steps[n]);
    }
  }

  /**
   In every run the committed offset has passed, from where reading began, exactly the messages that
   were processed well and then committed by the same session and those that failed there and were
   committed past, and no message is of both kinds.
   */
  lemma CacheOffsetsHaveExactlyOneFate(
    log: seq<Message>, committed: Option<nat>, start: nat, steps: seq<LoopStep>, s: LoopState, o: nat)
    requires committed.Some? ==> committed.value == start
    requires LoopAfter(log, Opened(committed, start), steps) == Some(s)
    ensures HandledThenCommitted(s.hist, o) || CommittedPast(s.hist, o)
       <==> s.committed.Some? && s.base <= o < s.committed.value
    ensures !(HandledThenCommitted(s.hist, o) && CommittedPast(s.hist, o))
  {
    EveryLoopRunKeepsTheInvariant(log, committed, start, steps, s);
    assert Fated(s.hist, o) <==> s.committed.Some? && s.base <= o < s.committed.value;
    OneFate(s.hist, o);
  }

  /**
   A group without an offset skips: message 0 fails, the restart begins at the end of the topic,
   message 1 is committed, and message 0, below the committed offset, was neither handled nor
   committed past.
   */
  lemma FirstMessagesCanBeSkipped()
    ensures exists log, steps, s ::
      && LoopAfter(log, Opened(None, 0), steps) == Some(s) && s.committed == Some(2)
      && !HandledThenCommitted(s.hist, 0) && !CommittedPast(s.hist, 0)
  {
    var log := [Message.Poison, Message.Poison];
    var steps, s := SkipOne(log);
    CacheOffsetsHaveExactlyOneFate(log, None, 0, steps, s, 0);
  }

  lemma SkipOne(log: seq<Message>) returns (steps: seq<LoopStep>, s: LoopState)
    requires |log| == 2 && log[0].Poison? && log[1].Poison?
    ensures LoopAfter(log, Opened(None, 0), steps) == Some(s) && s.committed == Some(2) && s.base == 1
  {
    var fail, again, ok := Handle(0, NoFault, false, true), Reopen(1), Handle(0, NoFault, true, true);
    var s0 := Opened(None, 0);
    var s1 := LoopNext(log, s0, fail).value;
    var s2 := LoopNext(log, s1, again).value;
    OneMoreStep(log, s0, [], fail, s0);
    OneMoreStep(log, s0, [] + [fail], again, s1);
    OneMoreStep(log, s0, [] + [fail] + [again], ok, s2);
    steps, s := [] + [fail] + [again] + [ok], LoopNext(log, s2, ok).value;
  }

  lemma OneMoreStep(log: seq<Message>, s: LoopState, steps: seq<LoopStep>, step: LoopStep, t: LoopState)
    requires LoopAfter(log, s, steps) == Some(t)
    ensures LoopAfter(log, s, steps + [step]) == LoopNext(log, t, step)
  {
    assert (steps + [step])[..|steps|] == steps;
  }
}
