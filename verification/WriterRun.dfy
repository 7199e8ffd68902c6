/**
 Whole runs of the database-writer: read a batch, write it until the write reports success, commit
 the offset, with crashes, lost offset commits and writes that are applied but reported failed.
 */
module WriterRun {
  import opened Sql
  import opened FlightRow
  import opened Tables
  import opened Sequences

  /** One message of the topic. */
  datatype Entry = Poison | Parsed(flight: Flight)

  /** The messages a batch hands to the store: poison and flights without a GUFI are left out. */
  function Passed(entries: seq<Entry>): seq<Arrival> {
    if entries == [] then []
    else
      var before, e := Passed(entries[..|entries| - 1]), entries[|entries| - 1];
      if e.Parsed? && e.flight.gufi != "" then before + [Arrival(e.flight, 0, 0)] else before
  }

  lemma {:induction false} PassedConcat(a: seq<Entry>, b: seq<Entry>)
    ensures Passed(a + b) == Passed(a) + Passed(b)
  {
    if b == [] {
      assert a + b == a;
    } else {
      assert (a + b)[..|a + b| - 1] == a + b[..|b| - 1];
      PassedConcat(a, b[..|b| - 1]);
    }
  }

  lemma PassedSplit(log: seq<Entry>, a: nat, b: nat, c: nat)
    requires a <= b <= c <= |log|
    ensures Passed(log[a..c]) == Passed(log[a..b]) + Passed(log[b..c])
  {
    assert log[a..c] == log[a..b] + log[b..c];
    PassedConcat(log[a..b], log[b..c]);
  }

  lemma PassedWithin(log: seq<Entry>, a: nat, b: nat, c: nat, d: nat)
    requires a <= b <= c <= d <= |log|
    ensures forall x :: x in Passed(log[b..c]) ==> x in Passed(log[a..d])
  {
    PassedSplit(log, a, b, d);
    PassedSplit(log, b, c, d);
  }

  datatype Phase = Idle | Writing(lo: nat, hi: nat) | Written(hi: nat)

  /**
   `committed` is the group's offset, absent until a first commit lands. The last three components
   are history: everything in `[base, next)` has been applied, and `earlier` was applied before the
   consumer last started at the end of the topic.
   */
  datatype State = State(
    db: Db,
    committed: Option<nat>,
    fetch: nat,
    phase: Phase,
    earlier: seq<Arrival>,
    base: nat,
    next: nat)

  datatype Event =
    | Read(n: nat)
    | Attempt(arrivals: seq<Arrival>, durable: bool, ok: bool)
    | Commit(lands: bool)
    | Restart(end: nat)

  ghost predicate SameFlights(a: seq<Arrival>, b: seq<Arrival>) {
    |a| == |b| && forall k :: 0 <= k < |a| ==> a[k].flight == b[k].flight
  }

  ghost predicate Enabled(log: seq<Entry>, batchSize: nat, s: State, e: Event) {
    match e
    case Read(n) => s.phase == Idle && 1 <= n <= batchSize && s.fetch + n <= |log|
    case Attempt(arrivals, durable, ok) =>
      && s.phase.Writing? && s.phase.lo <= s.phase.hi <= |log|
      && SameFlights(arrivals, Passed(log[s.phase.lo..s.phase.hi]))
      && (ok ==> durable)
    case Commit(_) => s.phase.Written?
    case Restart(end) => s.committed.None? ==> s.fetch <= end <= |log|
  }

  function Max(a: nat, b: nat): nat {
    if a >= b then a else b
  }

  ghost function Next(log: seq<Entry>, batchSize: nat, s: State, e: Event): State
    requires Enabled(log, batchSize, s, e)
    requires s.base <= s.next <= |log|
  {
    match e
    case Read(n) =>
      s.(phase := Writing(s.fetch, s.fetch + n), fetch := s.fetch + n)
    case Attempt(arrivals, durable, ok) =>
      s.(db := if durable then RecordEach(s.db, arrivals) else s.db,
         next := if durable then Max(s.next, s.phase.hi) else s.next,
         phase := if ok then Written(s.phase.hi) else s.phase)
    case Commit(lands) =>
      s.(committed := if lands then Some(s.phase.hi) else s.committed, phase := Idle)
    case Restart(end) =>
      if s.committed.Some? then
        s.(fetch := s.committed.value, phase := Idle)
      else
        // no committed offset: the reader starts at the end of the topic
        s.(fetch := end, phase := Idle, earlier := First(log, s), base := end, next := end)
  }

  /** The messages applied so far, each once, in the order they were first applied. */
  ghost function First(log: seq<Entry>, s: State): seq<Arrival>
    requires s.base <= s.next <= |log|
  {
    s.earlier + Passed(log[s.base..s.next])
  }

  function Init(db: Db, committed: Option<nat>, start: nat): State {
    State(db, committed, start, Idle, [], start, start)
  }

  /** The state after a run of events, or `None` when one of them could not happen. */
  ghost function After(log: seq<Entry>, batchSize: nat, s: State, es: seq<Event>): Option<State> {
    if es == [] then Some(s)
    else
      var before := After(log, batchSize, s, es[..|es| - 1]);
      if before.Some? && before.value.base <= before.value.next <= |log|
         && Enabled(log, batchSize, before.value, es[|es| - 1])
      then Some(Next(log, batchSize, before.value, es[|es| - 1]))
      else None
  }

  lemma {:induction false} AfterConcat(log: seq<Entry>, batchSize: nat, s: State, a: seq<Event>, b: seq<Event>)
    requires After(log, batchSize, s, a).Some?
    ensures After(log, batchSize, s, a + b) == After(log, batchSize, After(log, batchSize, s, a).value, b)
  {
    if b == [] {
      assert a + b == a;
    } else {
      assert (a + b)[..|a + b| - 1] == a + b[..|b| - 1];
      AfterConcat(log, batchSize, s, a, b[..|b| - 1]);
    }
  }

  // ---------- offsets ----------

  ghost predicate OffsetsInOrder(log: seq<Entry>, s: State) {
    && s.base <= s.next <= |log|
    && s.base <= s.fetch <= |log|
    && (s.committed.Some? ==> s.base <= s.committed.value <= s.next)
    && (s.committed.None? ==> s.next <= s.fetch)
    && match s.phase
       case Idle => s.fetch <= s.next
       case Writing(lo, hi) => s.base <= lo <= s.next && lo <= hi == s.fetch
       case Written(hi) => s.base <= hi <= s.next && hi == s.fetch
  }

  lemma RestartKeepsFirst(log: seq<Entry>, batchSize: nat, s: State, e: Event)
    requires OffsetsInOrder(log, s) && Enabled(log, batchSize, s, e) && e.Restart?
    ensures var t := Next(log, batchSize, s, e); t.next <= |log| && First(log, t) == First(log, s)
  {
    if s.committed.None? {
      assert log[e.end..e.end] == [];
      assert First(log, s) + [] == First(log, s);
    }
  }

  /** A commit never passes a message that has not been applied, and applied messages stay applied. */
  lemma StepKeepsOffsets(log: seq<Entry>, batchSize: nat, s: State, e: Event)
    requires OffsetsInOrder(log, s) && Enabled(log, batchSize, s, e)
    ensures OffsetsInOrder(log, Next(log, batchSize, s, e))
    ensures First(log, s) <= First(log, Next(log, batchSize, s, e))
    ensures s.next <= Next(log, batchSize, s, e).next
  {
    if e.Attempt? && e.durable && s.phase.hi > s.next {
      PassedSplit(log, s.base, s.next, s.phase.hi);
    } else if e.Restart? && s.committed.None? {
      RestartKeepsFirst(log, batchSize, s, e);
    }
  }

  // ---------- redelivery at the level of the tables ----------

  /** Everything but the append-only positions. */
  ghost predicate SameTables(a: Db, b: Db) {
    a.flights == b.flights && a.airports == b.airports
  }

  ghost predicate Parseable(arrivals: seq<Arrival>) {
    forall k :: 0 <= k < |arrivals| ==> arrivals[k].flight.timestamp.Some?
  }

  ghost predicate TiesAgree(arrivals: seq<Arrival>) {
    forall g :: TieSafe(RowsOf(arrivals, g))
  }

  /** With parseable timestamps the clock is never consulted. */
  lemma {:induction false} ClocksDoNotMatter(db: Db, a: seq<Arrival>, b: seq<Arrival>)
    requires SameFlights(a, b) && Parseable(a)
    ensures RecordEach(db, a) == RecordEach(db, b)
  {
    if a != [] {
      ClocksDoNotMatter(db, a[..|a| - 1], b[..|b| - 1]);
    }
  }

  lemma TablesDetermineTable(a: Db, b: Db, arrival: Arrival)
    requires SameTables(a, b)
    ensures SameTables(RecordOne(a, arrival), RecordOne(b, arrival))
  {
  }

  lemma {:induction false} TablesDetermineTables(a: Db, b: Db, arrivals: seq<Arrival>)
    requires SameTables(a, b)
    ensures SameTables(RecordEach(a, arrivals), RecordEach(b, arrivals))
  {
    if arrivals != [] {
      TablesDetermineTables(a, b, arrivals[..|arrivals| - 1]);
    }
  }

  lemma {:induction false} RowsOfConcat(a: seq<Arrival>, b: seq<Arrival>, g: string)
    ensures RowsOf(a + b, g) == RowsOf(a, g) + RowsOf(b, g)
  {
    if b == [] {
      assert a + b == a;
    } else {
      assert (a + b)[..|a + b| - 1] == a + b[..|b| - 1];
      RowsOfConcat(a, b[..|b| - 1], g);
    }
  }

  lemma TiesAgreeOnPrefix(a: seq<Arrival>, b: seq<Arrival>)
    requires a <= b && TiesAgree(b)
    ensures TiesAgree(a)
  {
    forall g ensures TieSafe(RowsOf(a, g)) {
      assert b == a + b[|a|..];
      RowsOfConcat(a, b[|a|..], g);
      TieSafePrefix(RowsOf(b, g), |RowsOf(a, g)|);
      assert RowsOf(b, g)[..|RowsOf(a, g)|] == RowsOf(a, g);
    }
  }

  lemma {:induction false} RowIsAmongRows(arrivals: seq<Arrival>, k: nat) returns (i: nat)
    requires k < |arrivals|
    ensures var rows := RowsOf(arrivals, arrivals[k].flight.gufi); i < |rows| && rows[i] == ProposedRow(arrivals[k])
  {
    var n := |arrivals| - 1;
    if k == n {
      i := |RowsOf(arrivals[..n], arrivals[k].flight.gufi)|;
    } else {
      i := RowIsAmongRows(arrivals[..n], k);
    }
  }

  lemma {:induction false} MentionIsAbsorbed(airports: map<string, Airport>, ms: seq<Sighted>, i: nat)
    requires i < |ms| && ms[i].code != ""
    ensures ms[i].code in MentionAll(airports, ms)
    ensures var row := MentionAll(airports, ms)[ms[i].code]; UpsertAirport(Some(row), ms[i].coord) == row
  {
    var n := |ms| - 1;
    if i < n {
      MentionIsAbsorbed(airports, ms[..n], i);
    }
  }

  lemma MentionAgain(airports: map<string, Airport>, ms: seq<Sighted>, m: Sighted)
    requires m in ms
    ensures Mention(MentionAll(airports, ms), m.code, m.coord) == MentionAll(airports, ms)
  {
    var i :| 0 <= i < |ms| && ms[i] == m;
    if m.code != "" {
      MentionIsAbsorbed(airports, ms, i);
    }
  }

  /** A message that was recorded before changes neither flights nor airports. */
  lemma RedeliveredMessageIsNoOp(db0: Db, done: seq<Arrival>, k: nat)
    requires k < |done| && TiesAgree(done)
    ensures SameTables(RecordOne(RecordEach(db0, done), done[k]), RecordEach(db0, done))
  {
    FlightIsAlreadyThere(db0, done, k);
    AirportsAreAlreadyThere(db0, done, k);
  }

  lemma FlightIsAlreadyThere(db0: Db, done: seq<Arrival>, k: nat)
    requires k < |done| && TiesAgree(done)
    ensures RecordOne(RecordEach(db0, done), done[k]).flights == RecordEach(db0, done).flights
  {
    var db, g := RecordEach(db0, done), done[k].flight.gufi;
    FlightsAreIndependent(db0, done, g);
    var i := RowIsAmongRows(done, k);
    RedeliveryIsNoOp(Lookup(db0.flights, g), RowsOf(done, g), i);
    PuttingBackChangesNothing(db.flights, g, Upsert(Lookup(db.flights, g), ProposedRow(done[k])));
  }

  lemma PuttingBackChangesNothing(flights: map<string, Row>, g: string, row: Row)
    requires Lookup(flights, g) == Some(row)
    ensures flights[g := row] == flights
  {
  }

  lemma AirportsAreAlreadyThere(db0: Db, done: seq<Arrival>, k: nat)
    requires k < |done|
    ensures RecordOne(RecordEach(db0, done), done[k]).airports == RecordEach(db0, done).airports
  {
    var f := done[k].flight;
    RecordEachByTable(db0, done);
    MentionsCover(done, k);
    MentionAgain(db0.airports, Mentions(done), Sighted(f.origin, f.originCoord));
    MentionAgain(db0.airports, Mentions(done), Sighted(f.destination, f.destinationCoord));
  }

  lemma {:induction false} NoOpsAddUpToNoOp(db: Db, again: seq<Arrival>)
    requires forall a :: a in again ==> SameTables(RecordOne(db, a), db)
    ensures SameTables(RecordEach(db, again), db)
  {
    if again != [] {
      var n := |again| - 1;
      NoOpsAddUpToNoOp(db, again[..n]);
      assert again[n] in again;
      TablesDetermineTable(RecordEach(db, again[..n]), db, again[n]);
    }
  }

  lemma RedeliveryOfManyIsNoOp(db0: Db, done: seq<Arrival>, again: seq<Arrival>)
    requires TiesAgree(done)
    requires forall a :: a in again ==> a in done
    ensures SameTables(RecordEach(RecordEach(db0, done), again), RecordEach(db0, done))
  {
    var db := RecordEach(db0, done);
    forall a | a in again ensures SameTables(RecordOne(db, a), db) {
      var k :| 0 <= k < |done| && done[k] == a;
      RedeliveredMessageIsNoOp(db0, done, k);
    }
    NoOpsAddUpToNoOp(db, again);
  }

  // ---------- every run ----------

  /** Flights and airports are those of one in-order pass over the first deliveries. */
  ghost predicate IsSinglePass(log: seq<Entry>, db0: Db, s: State)
    requires s.base <= s.next <= |log|
  {
    SameTables(s.db, RecordEach(db0, First(log, s)))
  }

  ghost predicate AllParseable(log: seq<Entry>) {
    forall k :: 0 <= k < |log| && log[k].Parsed? ==> log[k].flight.timestamp.Some?
  }

  lemma {:induction false} PassedIsParseable(entries: seq<Entry>)
    requires AllParseable(entries)
    ensures Parseable(Passed(entries))
  {
    if entries != [] {
      var n := |entries| - 1;
      assert forall k :: 0 <= k < n ==> entries[..n][k] == entries[k];
      PassedIsParseable(entries[..n]);
    }
  }

  /** Repeating known messages and then adding new ones is the same as adding the new ones. */
  lemma RepeatThenExtend(db0: Db, db: Db, done: seq<Arrival>, again: seq<Arrival>, more: seq<Arrival>)
    requires SameTables(db, RecordEach(db0, done)) && TiesAgree(done)
    requires forall a :: a in again ==> a in done
    ensures SameTables(RecordEach(db, again + more), RecordEach(db0, done + more))
  {
    RedeliveryOfManyIsNoOp(db0, done, again);
    TablesDetermineTables(db, RecordEach(db0, done), again);
    RecordEachConcat(db, again, more);
    RecordEachConcat(db0, done, more);
    TablesDetermineTables(RecordEach(db, again), RecordEach(db0, done), more);
  }

  /** A batch that has been written holds only messages applied before, then only new ones. */
  lemma BatchRepeatsThenExtends(log: seq<Entry>, batchSize: nat, s: State, e: Event)
    returns (again: seq<Arrival>, more: seq<Arrival>)
    requires OffsetsInOrder(log, s) && Enabled(log, batchSize, s, e) && e.Attempt? && e.durable
    ensures Passed(log[s.phase.lo..s.phase.hi]) == again + more
    ensures forall a :: a in again ==> a in First(log, s)
    ensures OffsetsInOrder(log, Next(log, batchSize, s, e))
    ensures First(log, Next(log, batchSize, s, e)) == First(log, s) + more
  {
    StepKeepsOffsets(log, batchSize, s, e);
    again, more := OverlapSplits(log, s.base, s.phase.lo, s.phase.hi, s.next);
    var t := Next(log, batchSize, s, e);
    assert t.earlier == s.earlier && t.base == s.base && t.next == Max(s.next, s.phase.hi);
    Reassociate(s.earlier, Passed(log[s.base..s.next]), more);
    forall a | a in again ensures a in First(log, s) {
      assert a in Passed(log[s.base..s.next]);
    }
  }

  lemma OverlapSplits(log: seq<Entry>, base: nat, lo: nat, hi: nat, next: nat)
    returns (again: seq<Arrival>, more: seq<Arrival>)
    requires base <= lo <= next <= |log| && lo <= hi <= |log|
    ensures Passed(log[lo..hi]) == again + more
    ensures forall a :: a in again ==> a in Passed(log[base..next])
    ensures Passed(log[base..Max(next, hi)]) == Passed(log[base..next]) + more
  {
    if hi <= next {
      again, more := Passed(log[lo..hi]), [];
      PassedWithin(log, base, lo, hi, next);
    } else {
      again, more := Passed(log[lo..next]), Passed(log[next..hi]);
      PassedWithin(log, base, lo, next, next);
      PassedSplit(log, lo, next, hi);
      PassedSplit(log, base, next, hi);
    }
  }

  lemma AttemptIgnoresClocks(log: seq<Entry>, batchSize: nat, s: State, e: Event)
    requires OffsetsInOrder(log, s) && Enabled(log, batchSize, s, e) && e.Attempt? && e.durable
    requires AllParseable(log)
    ensures Next(log, batchSize, s, e).db == RecordEach(s.db, Passed(log[s.phase.lo..s.phase.hi]))
  {
    var lo, hi := s.phase.lo, s.phase.hi;
    assert forall k :: 0 <= k < hi - lo ==> log[lo..hi][k] == log[lo + k];
    PassedIsParseable(log[lo..hi]);
    ClocksDoNotMatter(s.db, e.arrivals, Passed(log[lo..hi]));
  }

  lemma AttemptKeepsSinglePass(log: seq<Entry>, db0: Db, batchSize: nat, s: State, e: Event)
    requires OffsetsInOrder(log, s) && Enabled(log, batchSize, s, e) && e.Attempt? && e.durable
    requires AllParseable(log) && TiesAgree(First(log, s))
    requires IsSinglePass(log, db0, s)
    ensures OffsetsInOrder(log, Next(log, batchSize, s, e))
    ensures IsSinglePass(log, db0, Next(log, batchSize, s, e))
  {
    var again, more := BatchRepeatsThenExtends(log, batchSize, s, e);
    AttemptIgnoresClocks(log, batchSize, s, e);
    RepeatThenExtend(db0, s.db, First(log, s), again, more);
  }

  lemma StepKeepsSinglePass(log: seq<Entry>, db0: Db, batchSize: nat, s: State, e: Event)
    requires OffsetsInOrder(log, s) && Enabled(log, batchSize, s, e)
    requires AllParseable(log) && TiesAgree(First(log, s))
    requires IsSinglePass(log, db0, s)
    ensures OffsetsInOrder(log, Next(log, batchSize, s, e))
    ensures IsSinglePass(log, db0, Next(log, batchSize, s, e))
  {
    StepKeepsOffsets(log, batchSize, s, e);
    if e.Attempt? && e.durable {
      AttemptKeepsSinglePass(log, db0, batchSize, s, e);
    } else if e.Restart? {
      RestartKeepsFirst(log, batchSize, s, e);
    }
  }

  /**
   However often the writer crashes, loses a commit or repeats a write, `flights` and `airports`
   are those of one in-order pass over the messages applied so far, each taken once, and the
   committed offset has not passed any message that was not applied.
   */
  lemma {:induction false} EveryRunIsASinglePass(
    log: seq<Entry>, batchSize: nat, db0: Db, committed: Option<nat>, start: nat, es: seq<Event>, s: State)
    requires start <= |log| && (committed.Some? ==> committed.value == start)
    requires After(log, batchSize, Init(db0, committed, start), es) == Some(s)
    requires AllParseable(log)
    ensures OffsetsInOrder(log, s)
    ensures TiesAgree(First(log, s)) ==> IsSinglePass(log, db0, s)
    ensures committed.Some? ==> s.committed.Some? && s.earlier == [] && s.base == start
  {
    if es == [] {
      assert log[start..start] == [];
    } else {
      var n := |es| - 1;
      var mid := After(log, batchSize, Init(db0, committed, start), es[..n]).value;
      EveryRunIsASinglePass(log, batchSize, db0, committed, start, es[..n], mid);
      StepKeepsOffsets(log, batchSize, mid, es[n]);
      if TiesAgree(First(log, s)) {
        TiesAgreeOnPrefix(First(log, mid), First(log, s));
        StepKeepsSinglePass(log, db0, batchSize, mid, es[n]);
      }
    }
  }

  /** For a group that has an offset: the messages from there to the highest offset ever applied. */
  lemma CommittedGroupIsASinglePass(
    log: seq<Entry>, batchSize: nat, db0: Db, start: nat, es: seq<Event>, s: State)
    requires start <= |log| && AllParseable(log)
    requires After(log, batchSize, Init(db0, Some(start), start), es) == Some(s)
    ensures start <= s.next <= |log|
    ensures TiesAgree(Passed(log[start..s.next])) ==> SameTables(s.db, RecordEach(db0, Passed(log[start..s.next])))
  {
    EveryRunIsASinglePass(log, batchSize, db0, Some(start), start, es, s);
    assert First(log, s) == Passed(log[start..s.next]);
  }

  // ---------- positions: at least once ----------

  lemma {:induction false} PositionsConcat(a: seq<Arrival>, b: seq<Arrival>)
    ensures PositionsOf(a + b) == PositionsOf(a) + PositionsOf(b)
  {
    if b == [] {
      assert a + b == a;
    } else {
      assert (a + b)[..|a + b| - 1] == a + b[..|b| - 1];
      PositionsConcat(a, b[..|b| - 1]);
    }
  }

  /** Positions are appended on every delivery: each first delivery is there, repeats only add copies. */
  lemma {:induction false} PositionsAreKeptAtLeastOnce(
    log: seq<Entry>, batchSize: nat, db0: Db, committed: Option<nat>, start: nat, es: seq<Event>, s: State)
    requires start <= |log| && (committed.Some? ==> committed.value == start)
    requires After(log, batchSize, Init(db0, committed, start), es) == Some(s)
    requires AllParseable(log)
    ensures OffsetsInOrder(log, s)
    ensures multiset(db0.positions + PositionsOf(First(log, s))) <= multiset(s.db.positions)
  {
    if es == [] {
      assert log[start..start] == [];
      assert db0.positions + PositionsOf([]) == db0.positions;
    } else {
      var n := |es| - 1;
      var mid, e := After(log, batchSize, Init(db0, committed, start), es[..n]).value, es[n];
      PositionsAreKeptAtLeastOnce(log, batchSize, db0, committed, start, es[..n], mid);
      StepKeepsOffsets(log, batchSize, mid, e);
      if e.Attempt? && e.durable {
        AttemptAppendsPositions(log, db0, batchSize, mid, e);
      } else if e.Restart? {
        RestartKeepsFirst(log, batchSize, mid, e);
      }
    }
  }

  lemma AttemptAppendsPositions(log: seq<Entry>, db0: Db, batchSize: nat, s: State, e: Event)
    requires OffsetsInOrder(log, s) && Enabled(log, batchSize, s, e) && e.Attempt? && e.durable
    requires AllParseable(log)
    requires multiset(db0.positions + PositionsOf(First(log, s))) <= multiset(s.db.positions)
    ensures var t := Next(log, batchSize, s, e);
      OffsetsInOrder(log, t) && multiset(db0.positions + PositionsOf(First(log, t))) <= multiset(t.db.positions)
  {
    var again, more := BatchRepeatsThenExtends(log, batchSize, s, e);
    AttemptIgnoresClocks(log, batchSize, s, e);
    RecordEachByTable(s.db, again + more);
    PositionsConcat(again, more);
    PositionsConcat(First(log, s), more);
    AppendedCopies(db0.positions, PositionsOf(First(log, s)), PositionsOf(again), PositionsOf(more), s.db.positions);
  }

  lemma AppendedCopies<T>(start: seq<T>, kept: seq<T>, again: seq<T>, more: seq<T>, all: seq<T>)
    requires multiset(start + kept) <= multiset(all)
    ensures multiset(start + (kept + more)) <= multiset(all + (again + more))
  {
    assert start + (kept + more) == (start + kept) + more;
    assert all + (again + more) == (all + again) + more;
  }
}
