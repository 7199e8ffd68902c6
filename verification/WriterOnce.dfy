/**
 The runs of the database-writer in which nothing goes wrong between a write and its commit: every
 message is recorded exactly once, whatever attempts failed cleanly and however often the writer was
 restarted between batches.
 */
module WriterOnce {
  import opened Sql
  import opened FlightRow
  import opened Tables
  import opened WriterRun

  /** No write is applied and reported failed, every commit lands, restarts come between batches. */
  ghost predicate CarefulEvent(s: State, e: Event) {
    match e
    case Read(_) => true
    case Attempt(_, durable, ok) => durable ==> ok
    case Commit(lands) => lands
    case Restart(_) => s.phase == Idle
  }

  ghost predicate Careful(log: seq<Entry>, batchSize: nat, s: State, es: seq<Event>) {
    es == [] || (
      var before := After(log, batchSize, s, es[..|es| - 1]);
      Careful(log, batchSize, s, es[..|es| - 1]) && before.Some? && CarefulEvent(before.value, es[|es| - 1]))
  }

  /** Where such a run stands: what is behind the reader has been recorded once and committed. */
  ghost predicate OnceSoFar(log: seq<Entry>, db0: Db, s: State) {
    && OffsetsInOrder(log, s) && s.db == RecordEach(db0, First(log, s))
    && match s.phase
       case Idle => s.fetch == s.next && (s.committed.Some? ==> s.committed.value == s.fetch)
       case Writing(lo, hi) => lo == s.next && hi == s.fetch
       case Written(hi) => hi == s.next == s.fetch
  }

  lemma WriteOnce(log: seq<Entry>, batchSize: nat, db0: Db, s: State, e: Event)
    requires OnceSoFar(log, db0, s) && Enabled(log, batchSize, s, e) && AllParseable(log)
    requires e.Attempt? && e.durable && e.ok
    ensures OnceSoFar(log, db0, Next(log, batchSize, s, e))
  {
    var t := Next(log, batchSize, s, e);
    StepKeepsOffsets(log, batchSize, s, e);
    AttemptIgnoresClocks(log, batchSize, s, e);
    var more := Passed(log[s.next..s.phase.hi]);
    AppliedGrows(log, s.earlier, s.base, s.next, s.phase.hi);
    RecordedInTurn(db0, First(log, s), more, First(log, t), s.db, t.db);
  }

  lemma AppliedGrows(log: seq<Entry>, earlier: seq<Arrival>, base: nat, next: nat, hi: nat)
    requires base <= next <= hi <= |log|
    ensures earlier + Passed(log[base..hi]) == (earlier + Passed(log[base..next])) + Passed(log[next..hi])
  {
    PassedSplit(log, base, next, hi);
  }

  lemma RecordedInTurn(db0: Db, done: seq<Arrival>, more: seq<Arrival>, all: seq<Arrival>, mid: Db, after: Db)
    requires all == done + more && mid == RecordEach(db0, done) && after == RecordEach(mid, more)
    ensures after == RecordEach(db0, all)
  {
    RecordEachConcat(db0, done, more);
  }

  lemma StepKeepsOnce(log: seq<Entry>, batchSize: nat, db0: Db, s: State, e: Event)
    requires OnceSoFar(log, db0, s) && Enabled(log, batchSize, s, e) && CarefulEvent(s, e) && AllParseable(log)
    ensures OnceSoFar(log, db0, Next(log, batchSize, s, e))
  {
    StepKeepsOffsets(log, batchSize, s, e);
    if e.Attempt? && e.durable {
      WriteOnce(log, batchSize, db0, s, e);
    } else if e.Restart? {
      RestartKeepsFirst(log, batchSize, s, e);
    }
  }

  lemma CommittedStays(log: seq<Entry>, batchSize: nat, s: State, e: Event)
    requires OffsetsInOrder(log, s) && Enabled(log, batchSize, s, e) && CarefulEvent(s, e)
    ensures s.committed.Some? || e.Commit? ==> Next(log, batchSize, s, e).committed.Some?
  {
  }

  /**
   In every such run the tables are those of recording each message once, in order, ties or no ties:
   no position is there twice. Between batches everything read has been recorded, and once the group
   has an offset, or a commit has been made, that offset is where the reader stands.
   */
  lemma {:induction false} CarefulRunsRecordExactlyOnce(
    log: seq<Entry>, batchSize: nat, db0: Db, committed: Option<nat>, start: nat, es: seq<Event>, s: State)
    requires start <= |log| && (committed.Some? ==> committed.value == start) && AllParseable(log)
    requires After(log, batchSize, Init(db0, committed, start), es) == Some(s)
    requires Careful(log, batchSize, Init(db0, committed, start), es)
    ensures OffsetsInOrder(log, s)
    ensures s.db == RecordEach(db0, First(log, s))
    ensures s.db.positions == db0.positions + PositionsOf(First(log, s))
    ensures s.phase == Idle ==> s.fetch == s.next
    ensures committed.Some? || (exists i :: 0 <= i < |es| && es[i].Commit?) ==> s.committed.Some?
    ensures s.phase == Idle && s.committed.Some? ==> s.committed.value == s.fetch
  {
    CarefulRunIsOnce(log, batchSize, db0, committed, start, es, s);
    RecordEachByTable(db0, First(log, s));
  }

  lemma {:induction false} CarefulRunIsOnce(
    log: seq<Entry>, batchSize: nat, db0: Db, committed: Option<nat>, start: nat, es: seq<Event>, s: State)
    requires start <= |log| && (committed.Some? ==> committed.value == start) && AllParseable(log)
    requires After(log, batchSize, Init(db0, committed, start), es) == Some(s)
    requires Careful(log, batchSize, Init(db0, committed, start), es)
    ensures OnceSoFar(log, db0, s)
    ensures committed.Some? || (exists i :: 0 <= i < |es| && es[i].Commit?) ==> s.committed.Some?
  {
    if es == [] {
      assert log[start..start] == [];
    } else {
      var n := |es| - 1;
      var mid := After(log, batchSize, Init(db0, committed, start), es[..n]).value;
      CarefulRunIsOnce(log, batchSize, db0, committed, start, es[..n], mid);
      StepKeepsOnce(log, batchSize, db0, mid, es[n]);
      CommittedStays(log, batchSize, mid, es[n]);
      if exists i :: 0 <= i < n && es[i].Commit? {
        var i :| 0 <= i < n && es[i].Commit?;
        assert es[..n][i].Commit?;
      }
    }
  }
}
