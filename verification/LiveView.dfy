/**
 The live view after whole runs of the cache-writer, failed writes, restarts and redelivery included,
 and its agreement with the history after whole runs of the database-writer.
 */
module LiveView {
  import opened Sql
  import opened FlightRow
  import opened RedisView
  import opened CacheWriter
  import opened CacheLoop
  import opened WorkerPool
  import Tables
  import WriterRun
  import Lifecycle

  predicate TouchesFlight(m: Message, gufi: string) {
    m.Parsed? && m.flight.gufi == gufi && ActionOf(m.flight) != Keep
  }

  predicate IsLostWrite(e: Event) {
    e.Finished? && e.outcome.PublishFailed? && e.outcome.landed == []
  }

  /** No write for this flight was lost: each reached the store, whatever was reported. */
  ghost predicate NoWriteLost(log: seq<Message>, hist: seq<Event>, gufi: string) {
    forall i :: 0 <= i < |hist| && IsLostWrite(hist[i]) ==>
      hist[i].o < |log| && !TouchesFlight(log[hist[i].o], gufi)
  }

  /** Nothing that was ever read lies ahead of the reader. */
  ghost predicate CaughtUp(s: LoopState) {
    forall i :: 0 <= i < |s.seen| ==> s.seen[i].o < s.fetch
  }

  ghost predicate TouchAt(seen: seq<Seen>, gufi: string, i: int) {
    0 <= i < |seen| && Touches(seen[i].a, gufi)
  }

  /** Since entry `m` the flight has only been touched by later messages. */
  ghost predicate FinalAt(seen: seq<Seen>, gufi: string, m: int) {
    TouchAt(seen, gufi, m) && forall j :: m < j && TouchAt(seen, gufi, j) ==> seen[m].o < seen[j].o
  }

  /** Entry `m` repeats entry `i`, for the last time. */
  ghost predicate FinalFor(seen: seq<Seen>, gufi: string, i: int, m: int) {
    TouchAt(seen, gufi, i) && i <= m && FinalAt(seen, gufi, m) && seen[m].o == seen[i].o
  }

  ghost predicate RedoneAt(seen: seq<Seen>, gufi: string, i: int) {
    exists m :: FinalFor(seen, gufi, i, m)
  }

  /** What lies behind the reader has been redone after everything older. */
  ghost predicate Redone(s: LoopState, gufi: string) {
    forall i :: TouchAt(s.seen, gufi, i) && s.seen[i].o < s.fetch ==> RedoneAt(s.seen, gufi, i)
  }

  ghost predicate SeenIsLog(log: seq<Message>, s: LoopState) {
    forall i :: 0 <= i < |s.seen| ==> s.seen[i].o < |log| && log[s.seen[i].o] == Message.Parsed(s.seen[i].a.flight)
  }

  ghost predicate SeenOffset(seen: seq<Seen>, gufi: string, k: nat) {
    exists i :: TouchAt(seen, gufi, i) && seen[i].o == k
  }

  /** Every touching message between `base` and the reader has reached the store. */
  ghost predicate Covered(log: seq<Message>, s: LoopState, gufi: string) {
    forall k: nat :: s.base <= k < s.fetch && k < |log| && TouchesFlight(log[k], gufi) ==> SeenOffset(s.seen, gufi, k)
  }

  ghost predicate ViewInvariant(log: seq<Message>, s: LoopState, gufi: string) {
    && s.fetch <= |log| && SeenIsLog(log, s) && Redone(s, gufi) && Covered(log, s, gufi)
    && (s.committed.None? ==> CaughtUp(s))
  }

  // ---------- one step ----------

  lemma AppendKeepsFinal(seen: seq<Seen>, e: Seen, gufi: string, m: int)
    requires FinalAt(seen, gufi, m) && (Touches(e.a, gufi) ==> seen[m].o < e.o)
    ensures FinalAt(seen + [e], gufi, m)
  {
    var all := seen + [e];
    forall j | m < j && TouchAt(all, gufi, j) ensures all[m].o < all[j].o {
      assert j < |seen| ==> TouchAt(seen, gufi, j);
    }
  }

  lemma AppendKeepsRedone(s: LoopState, e: Seen, gufi: string, t: LoopState)
    requires Redone(s, gufi) && e.o == s.fetch
    requires forall i :: TouchAt(s.seen, gufi, i) && s.seen[i].o == s.fetch ==> Touches(e.a, gufi)
    requires t.seen == s.seen + [e] && t.fetch == s.fetch + 1
    ensures Redone(t, gufi)
  {
    var n := |s.seen|;
    forall i | TouchAt(t.seen, gufi, i) && t.seen[i].o < t.fetch ensures RedoneAt(t.seen, gufi, i) {
      if i < n && t.seen[i].o < s.fetch {
        assert TouchAt(s.seen, gufi, i) && RedoneAt(s.seen, gufi, i);
        var m :| FinalFor(s.seen, gufi, i, m);
        AppendKeepsFinal(s.seen, e, gufi, m);
        assert FinalFor(t.seen, gufi, i, m);
      } else {
        assert i < n ==> TouchAt(s.seen, gufi, i);
        assert FinalFor(t.seen, gufi, i, n);
      }
    }
  }

  lemma SeenStaysSeen(seen: seq<Seen>, e: Seen, gufi: string, k: nat)
    requires SeenOffset(seen, gufi, k)
    ensures SeenOffset(seen + [e], gufi, k)
  {
    var i :| TouchAt(seen, gufi, i) && seen[i].o == k;
    assert TouchAt(seen + [e], gufi, i);
  }

  lemma AppendKeepsCovered(log: seq<Message>, s: LoopState, e: Seen, gufi: string, t: LoopState)
    requires Covered(log, s, gufi) && s.fetch < |log|
    requires e.o == s.fetch && log[s.fetch] == Message.Parsed(e.a.flight)
    requires t.seen == s.seen + [e] && t.fetch == s.fetch + 1 && t.base == s.base
    ensures Covered(log, t, gufi)
  {
    forall k: nat | t.base <= k < t.fetch && k < |log| && TouchesFlight(log[k], gufi)
      ensures SeenOffset(t.seen, gufi, k)
    {
      if k == s.fetch {
        assert TouchAt(t.seen, gufi, |s.seen|);
      } else {
        SeenStaysSeen(s.seen, e, gufi, k);
      }
    }
  }

  /** A message that reached the store. */
  lemma ReachedKeepsView(log: seq<Message>, s: LoopState, now: int, gufi: string, t: LoopState)
    requires ViewInvariant(log, s, gufi) && s.fetch < |log| && log[s.fetch].Parsed?
    requires t.seen == s.seen + [Seen(s.fetch, Applied(log[s.fetch].flight, now))]
    requires t.fetch == s.fetch + 1 && t.base == s.base && (s.committed.Some? ==> t.committed.Some?)
    ensures ViewInvariant(log, t, gufi)
  {
    var e := Seen(s.fetch, Applied(log[s.fetch].flight, now));
    AppendKeepsRedone(s, e, gufi, t);
    AppendKeepsCovered(log, s, e, gufi, t);
  }

  /** A message that did not, or had nothing to write: it does not touch the flight. */
  lemma QuietKeepsView(log: seq<Message>, s: LoopState, gufi: string, t: LoopState)
    requires ViewInvariant(log, s, gufi) && s.fetch < |log| && !TouchesFlight(log[s.fetch], gufi)
    requires t.seen == s.seen && t.fetch == s.fetch + 1 && t.base == s.base
    requires s.committed.Some? ==> t.committed.Some?
    ensures ViewInvariant(log, t, gufi)
  {
    forall i | TouchAt(t.seen, gufi, i) && t.seen[i].o < t.fetch ensures RedoneAt(t.seen, gufi, i) {
      assert TouchAt(s.seen, gufi, i);
    }
  }

  lemma LostWriteIsRecorded(log: seq<Message>, s: LoopState, step: LoopStep, gufi: string)
    requires step.Handle? && s.fetch < |log|
    requires NoWriteLost(log, LoopNext(log, s, step).value.hist, gufi)
    ensures log[s.fetch].Parsed? && !Reaches(log[s.fetch].flight, step.fault) ==> !TouchesFlight(log[s.fetch], gufi)
    ensures NoWriteLost(log, s.hist, gufi)
  {
    var t := LoopNext(log, s, step).value;
    assert t.hist[|s.hist|] == Finished(s.fetch, Processed(log[s.fetch], step.fault, step.quarantined));
    assert forall i :: 0 <= i < |s.hist| ==> t.hist[i] == s.hist[i];
  }

  lemma StepKeepsView(log: seq<Message>, s: LoopState, step: LoopStep, gufi: string)
    requires ViewInvariant(log, s, gufi) && SessionInOrder(s) && LoopNext(log, s, step).Some?
    requires NoWriteLost(log, LoopNext(log, s, step).value.hist, gufi)
    ensures ViewInvariant(log, LoopNext(log, s, step).value, gufi)
  {
    var t := LoopNext(log, s, step).value;
    match step
    case Handle(now, fault, quarantined, lands) =>
      LostWriteIsRecorded(log, s, step, gufi);
      if log[s.fetch].Parsed? && Reaches(log[s.fetch].flight, fault) {
        ReachedKeepsView(log, s, now, gufi, t);
      } else {
        QuietKeepsView(log, s, gufi, t);
      }
    case Reopen(end) =>
      forall i | TouchAt(t.seen, gufi, i) && t.seen[i].o < t.fetch ensures RedoneAt(t.seen, gufi, i) {
        assert TouchAt(s.seen, gufi, i);
      }
  }

  lemma {:induction false} EveryRunKeepsTheView(
    log: seq<Message>, committed: Option<nat>, start: nat, steps: seq<LoopStep>, s: LoopState, gufi: string)
    requires start <= |log| && (committed.Some? ==> committed.value == start)
    requires LoopAfter(log, Opened(committed, start), steps) == Some(s) && NoWriteLost(log, s.hist, gufi)
    ensures ViewInvariant(log, s, gufi)
    ensures committed.Some? ==> s.committed.Some? && s.base == start
  {
    if steps == [] {
      assert s == Opened(committed, start);
    } else {
      var n := |steps| - 1;
      var mid := LoopAfter(log, Opened(committed, start), steps[..n]).value;
      EveryLoopRunKeepsTheInvariant(log, committed, start, steps[..n], mid);
      HistoryOfStep(log, mid, steps[n], gufi);
      EveryRunKeepsTheView(log, committed, start, steps[..n], mid, gufi);
      StepKeepsView(log, mid, steps[n], gufi);
    }
  }

  lemma HistoryOfStep(log: seq<Message>, s: LoopState, step: LoopStep, gufi: string)
    requires LoopNext(log, s, step).Some? && NoWriteLost(log, LoopNext(log, s, step).value.hist, gufi)
    ensures NoWriteLost(log, s.hist, gufi)
  {
    var t := LoopNext(log, s, step).value;
    assert forall i :: 0 <= i < |s.hist| ==> t.hist[i] == s.hist[i];
  }

  // ---------- what is visible ----------

  /** Entry `m` is the last delivery of the newest message that touches the flight. */
  ghost predicate IsNewestTouch(log: seq<Message>, s: LoopState, gufi: string, m: int) {
    && TouchAt(s.seen, gufi, m)
    && (forall i :: TouchAt(s.seen, gufi, i) ==> s.seen[i].o <= s.seen[m].o)
    && (forall i :: m < i && TouchAt(s.seen, gufi, i) ==> s.seen[i].o != s.seen[m].o)
    && (forall k: nat :: s.base <= k < s.fetch && k < |log| && TouchesFlight(log[k], gufi) ==> k <= s.seen[m].o)
  }

  lemma TouchesInHistory(s: LoopState, gufi: string, m: int)
    ensures LastTouch(History(s), gufi, m)
       <==> TouchAt(s.seen, gufi, m) && forall j :: m < j ==> !TouchAt(s.seen, gufi, j)
  {
    assert forall i :: 0 <= i < |s.seen| ==> History(s)[i] == s.seen[i].a;
    if TouchAt(s.seen, gufi, m) && forall j :: m < j ==> !TouchAt(s.seen, gufi, j) {
      forall k | m < k < |s.seen| ensures !Touches(History(s)[k], gufi) {
        assert !TouchAt(s.seen, gufi, k);
      }
    }
  }

  lemma NothingOlderIsNewer(s: LoopState, gufi: string, m: int, i: int)
    requires Redone(s, gufi) && CaughtUp(s) && TouchAt(s.seen, gufi, m) && TouchAt(s.seen, gufi, i)
    requires forall j :: m < j ==> !TouchAt(s.seen, gufi, j)
    ensures s.seen[i].o <= s.seen[m].o
  {
    assert RedoneAt(s.seen, gufi, i);
    var f :| FinalFor(s.seen, gufi, i, f);
    assert f <= m;
  }

  lemma LastTouchIsNewest(log: seq<Message>, s: LoopState, gufi: string, m: int)
    requires ViewInvariant(log, s, gufi) && CaughtUp(s)
    ensures LastTouch(History(s), gufi, m) <==> IsNewestTouch(log, s, gufi, m)
  {
    TouchesInHistory(s, gufi, m);
    if LastTouch(History(s), gufi, m) {
      LastIsNewest(log, s, gufi, m);
    }
    if IsNewestTouch(log, s, gufi, m) {
      NothingTouchesAfter(log, s, gufi, m);
    }
  }

  lemma LastIsNewest(log: seq<Message>, s: LoopState, gufi: string, m: int)
    requires ViewInvariant(log, s, gufi) && CaughtUp(s)
    requires TouchAt(s.seen, gufi, m) && forall j :: m < j ==> !TouchAt(s.seen, gufi, j)
    ensures IsNewestTouch(log, s, gufi, m)
  {
    forall i | TouchAt(s.seen, gufi, i) ensures s.seen[i].o <= s.seen[m].o {
      NothingOlderIsNewer(s, gufi, m, i);
    }
    forall k: nat | s.base <= k < s.fetch && k < |log| && TouchesFlight(log[k], gufi) ensures k <= s.seen[m].o {
      assert SeenOffset(s.seen, gufi, k);
      var i :| TouchAt(s.seen, gufi, i) && s.seen[i].o == k;
    }
  }

  lemma NothingTouchesAfter(log: seq<Message>, s: LoopState, gufi: string, m: int)
    requires ViewInvariant(log, s, gufi) && CaughtUp(s) && IsNewestTouch(log, s, gufi, m)
    ensures forall j :: m < j ==> !TouchAt(s.seen, gufi, j)
  {
    assert RedoneAt(s.seen, gufi, m);
    var f :| FinalFor(s.seen, gufi, m, f);
    assert f == m;
  }

  ghost predicate NewestIsFreshUpsert(log: seq<Message>, s: LoopState, ttl: int, gufi: string, now: int) {
    exists m :: IsNewestTouch(log, s, gufi, m) && ActionOf(s.seen[m].a.flight) == Refresh && now < s.seen[m].a.at + ttl
  }

  /**
   After any run of the cache-writer, restarts and redelivery included: once the reader has caught up
   and no write for the flight was lost, the flight is visible exactly when the newest message of the
   log that touches it is an upsert whose last delivery is younger than the TTL.
   */
  lemma CaughtUpViewShowsTheLog(
    ttl: int, log: seq<Message>, committed: Option<nat>, start: nat, steps: seq<LoopStep>, s: LoopState,
    gufi: string, now: int)
    requires start <= |log| && (committed.Some? ==> committed.value == start)
    requires LoopAfter(log, Opened(committed, start), steps) == Some(s)
    requires NoWriteLost(log, s.hist, gufi) && CaughtUp(s)
    ensures Live(KeysAfter(ttl, History(s)), gufi, now).Some? <==> NewestIsFreshUpsert(log, s, ttl, gufi, now)
  {
    EveryRunKeepsTheView(log, committed, start, steps, s, gufi);
    VisibleIffLastTouchIsFreshUpsert(ttl, History(s), gufi, now);
    forall m ensures LastTouch(History(s), gufi, m) <==> IsNewestTouch(log, s, gufi, m) {
      LastTouchIsNewest(log, s, gufi, m);
    }
    if LastTouchIsFreshUpsert(ttl, History(s), gufi, now) {
      var m :| LastTouch(History(s), gufi, m) && ActionOf(History(s)[m].flight) == Refresh
        && now < History(s)[m].at + ttl;
      assert IsNewestTouch(log, s, gufi, m);
    }
    if NewestIsFreshUpsert(log, s, ttl, gufi, now) {
      var m :| IsNewestTouch(log, s, gufi, m) && ActionOf(s.seen[m].a.flight) == Refresh && now < s.seen[m].a.at + ttl;
      assert LastTouch(History(s), gufi, m);
    }
  }

  // ---------- agreement with the history ----------

  /** The two services read the same topic. */
  ghost predicate SameLog(log: seq<Message>, entries: seq<WriterRun.Entry>) {
    && |log| == |entries|
    && (forall k :: 0 <= k < |log| ==> (log[k].Parsed? <==> entries[k].Parsed?))
    && (forall k :: 0 <= k < |log| && log[k].Parsed? ==> SameMessage(log[k].flight, entries[k].flight))
  }

  /** The row of the flight, whatever the database-writer went through, has the status of its newest message. */
  lemma StatusAfterAnyRun(
    entries: seq<WriterRun.Entry>, batchSize: nat, db0: Tables.Db, committed: Option<nat>, start: nat,
    es: seq<WriterRun.Event>, w: WriterRun.State, gufi: string)
    requires start <= |entries| && (committed.Some? ==> committed.value == start)
    requires WriterRun.After(entries, batchSize, WriterRun.Init(db0, committed, start), es) == Some(w)
    requires WriterRun.AllParseable(entries) && w.base <= w.next <= |entries|
    requires WriterRun.TiesAgree(WriterRun.First(entries, w))
    requires var rows := Tables.RowsOf(WriterRun.First(entries, w), gufi);
      rows != [] && Lifecycle.Ascending(rows) && Beats(rows[|rows| - 1], Tables.Lookup(db0.flights, gufi))
    ensures var rows := Tables.RowsOf(WriterRun.First(entries, w), gufi);
      gufi in w.db.flights && w.db.flights[gufi].status == rows[|rows| - 1].status
  {
    var first := WriterRun.First(entries, w);
    var rows := Tables.RowsOf(first, gufi);
    WriterRun.EveryRunIsASinglePass(entries, batchSize, db0, committed, start, es, w);
    Tables.FlightsAreIndependent(db0, first, gufi);
    AscendingEndsOnLast(Tables.Lookup(db0.flights, gufi), rows);
  }

  lemma {:induction false} LastOf(entries: seq<WriterRun.Entry>, gufi: string, i: nat) returns (k: nat)
    requires i < |entries| && IsOf(entries[i], gufi)
    ensures i <= k < |entries| && IsOf(entries[k], gufi)
    ensures forall j :: k < j < |entries| ==> !IsOf(entries[j], gufi)
  {
    var n := |entries| - 1;
    if IsOf(entries[n], gufi) {
      k := n;
    } else {
      k := LastOf(entries[..n], gufi, i);
      assert forall j :: 0 <= j < n ==> entries[..n][j] == entries[j];
    }
  }

  /** The newest message of a visible flight is ACTIVE: it refreshed the key or left it alone. */
  lemma NewestMessageIsActive(log: seq<Message>, s: LoopState, gufi: string, m: int, k: nat)
    requires ViewInvariant(log, s, gufi) && IsNewestTouch(log, s, gufi, m) && ActionOf(s.seen[m].a.flight) == Refresh
    requires s.base <= s.seen[m].o <= k < s.fetch && log[k].Parsed? && log[k].flight.gufi == gufi
    ensures log[k].flight.status == "ACTIVE"
  {
    if k == s.seen[m].o {
      assert log[k] == Message.Parsed(s.seen[m].a.flight);
    } else {
      assert !TouchesFlight(log[k], gufi);
    }
  }

  lemma LastRowIsActive(
    log: seq<Message>, entries: seq<WriterRun.Entry>, s: LoopState, gufi: string, m: int)
    requires SameLog(log, entries) && ViewInvariant(log, s, gufi) && CaughtUp(s) && gufi != "" && s.base <= s.fetch
    requires IsNewestTouch(log, s, gufi, m) && ActionOf(s.seen[m].a.flight) == Refresh && s.base <= s.seen[m].o
    ensures var rows := RowsIn(entries[s.base..s.fetch], gufi); rows != [] && rows[|rows| - 1].status == ACTIVE
  {
    var segment, o := entries[s.base..s.fetch], s.seen[m].o;
    assert log[o] == Message.Parsed(s.seen[m].a.flight);
    assert segment[o - s.base] == entries[o] && SameMessage(log[o].flight, entries[o].flight);
    var k := LastOf(segment, gufi, o - s.base);
    assert segment[k] == entries[s.base + k] && SameMessage(log[s.base + k].flight, entries[s.base + k].flight);
    NewestMessageIsActive(log, s, gufi, m, s.base + k);
    LastMessageIsLastRow(segment, gufi, k);
    ActiveRow(segment[k]);
  }

  /** Everything a committed group has put in the store it read from `base` on. */
  lemma {:induction false} SeenFromBase(
    log: seq<Message>, start: nat, steps: seq<LoopStep>, s: LoopState)
    requires start <= |log| && LoopAfter(log, Opened(Some(start), start), steps) == Some(s)
    ensures s.base == start && s.committed.Some?
    ensures forall i :: 0 <= i < |s.seen| ==> start <= s.seen[i].o
  {
    if steps == [] {
      assert s == Opened(Some(start), start);
    } else {
      var n := |steps| - 1;
      var mid := LoopAfter(log, Opened(Some(start), start), steps[..n]).value;
      SeenFromBase(log, start, steps[..n], mid);
      EveryLoopRunKeepsTheInvariant(log, Some(start), start, steps[..n], mid);
    }
  }

  lemma SameLogIsParseable(log: seq<Message>, entries: seq<WriterRun.Entry>)
    requires SameLog(log, entries)
    ensures WriterRun.AllParseable(entries)
  {
    forall k | 0 <= k < |entries| && entries[k].Parsed? ensures entries[k].flight.timestamp.Some? {
      assert SameMessage(log[k].flight, entries[k].flight);
    }
  }

  lemma VisibleMeansLastRowActive(
    ttl: int, log: seq<Message>, start: nat, steps: seq<LoopStep>, s: LoopState,
    entries: seq<WriterRun.Entry>, gufi: string, now: int)
    requires SameLog(log, entries) && start <= |log| && gufi != ""
    requires LoopAfter(log, Opened(Some(start), start), steps) == Some(s)
    requires NoWriteLost(log, s.hist, gufi) && CaughtUp(s)
    requires Live(KeysAfter(ttl, History(s)), gufi, now).Some?
    ensures start <= s.fetch <= |entries|
    ensures var rows := RowsIn(entries[start..s.fetch], gufi); rows != [] && rows[|rows| - 1].status == ACTIVE
  {
    EveryRunKeepsTheView(log, Some(start), start, steps, s, gufi);
    EveryLoopRunKeepsTheInvariant(log, Some(start), start, steps, s);
    SeenFromBase(log, start, steps, s);
    CaughtUpViewShowsTheLog(ttl, log, Some(start), start, steps, s, gufi, now);
    var m :| IsNewestTouch(log, s, gufi, m) && ActionOf(s.seen[m].a.flight) == Refresh;
    LastRowIsActive(log, entries, s, gufi, m);
  }

  /**
   Both writers after any runs of their own, crashes, repeated deliveries and lost commits included:
   if the cache-writer has caught up with what the database-writer has applied, lost no write for the
   flight, and the flight's messages come in timestamp order, a visible flight is ACTIVE in the database.
   */
  lemma VisibleFlightIsActiveAfterAnyRuns(
    ttl: int, log: seq<Message>, start: nat, steps: seq<LoopStep>, s: LoopState,
    entries: seq<WriterRun.Entry>, batchSize: nat, db0: Tables.Db, es: seq<WriterRun.Event>, w: WriterRun.State,
    gufi: string, now: int)
    requires SameLog(log, entries) && start <= |log| && gufi != ""
    requires LoopAfter(log, Opened(Some(start), start), steps) == Some(s)
    requires NoWriteLost(log, s.hist, gufi) && CaughtUp(s)
    requires WriterRun.After(entries, batchSize, WriterRun.Init(db0, Some(start), start), es) == Some(w)
    requires w.next == s.fetch && w.base <= w.next <= |entries|
    requires WriterRun.TiesAgree(WriterRun.First(entries, w))
    requires var rows := Tables.RowsOf(WriterRun.First(entries, w), gufi);
      Lifecycle.Ascending(rows) && (rows != [] ==> Beats(rows[|rows| - 1], Tables.Lookup(db0.flights, gufi)))
    requires Live(KeysAfter(ttl, History(s)), gufi, now).Some?
    ensures gufi in w.db.flights && w.db.flights[gufi].status == ACTIVE
  {
    SameLogIsParseable(log, entries);
    VisibleMeansLastRowActive(ttl, log, start, steps, s, entries, gufi, now);
    SegmentIsFirst(entries, batchSize, db0, start, es, w, gufi);
    StatusAfterAnyRun(entries, batchSize, db0, Some(start), start, es, w, gufi);
  }

  lemma SegmentIsFirst(
    entries: seq<WriterRun.Entry>, batchSize: nat, db0: Tables.Db, start: nat, es: seq<WriterRun.Event>,
    w: WriterRun.State, gufi: string)
    requires start <= |entries| && WriterRun.AllParseable(entries) && w.base <= w.next <= |entries|
    requires WriterRun.After(entries, batchSize, WriterRun.Init(db0, Some(start), start), es) == Some(w)
    ensures start <= w.next && Tables.RowsOf(WriterRun.First(entries, w), gufi) == RowsIn(entries[start..w.next], gufi)
  {
    WriterRun.EveryRunIsASinglePass(entries, batchSize, db0, Some(start), start, es, w);
    assert [] + WriterRun.Passed(entries[start..w.next]) == WriterRun.Passed(entries[start..w.next]);
  }
}
