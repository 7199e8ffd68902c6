/**
 From the normalizer's input to the history: two worker pools and the database-writer in a row, each
 with a run of its own.
 */
module EndToEnd {
  import opened Sql
  import opened FlightRow
  import opened Redelivery
  import opened Tables
  import opened PoolOrder
  import WorkerPool
  import LaddStore
  import WriterRun
  import RedisView

  /** The message of flight `g` in an item, as the statement the database-writer makes of it. */
  function RowsFor(flightOf: Item -> Tables.Flight, g: string): Item -> seq<Excluded> {
    (x: Item) => if flightOf(x).gufi == g then [ProposedRow(Arrival(flightOf(x), 0, 0))] else []
  }

  /** Timestamps parse, and messages of one flight with one timestamp carry one status. */
  ghost predicate NoClash(log: seq<WorkerPool.Entry>, flightOf: Item -> Tables.Flight) {
    && (forall x :: InLog(log, x) ==> flightOf(x).timestamp.Some?)
    && (forall x, y :: InLog(log, x) && InLog(log, y) && flightOf(x).gufi == flightOf(y).gufi
          && flightOf(x).timestamp == flightOf(y).timestamp
          ==> ProposedRow(Arrival(flightOf(x), 0, 0)).status == ProposedRow(Arrival(flightOf(y), 0, 0)).status)
  }

  /** The writer's topic holds these items. */
  ghost predicate Carries(entries: seq<WriterRun.Entry>, items: seq<Item>, flightOf: Item -> Tables.Flight) {
    |entries| == |items| && forall k :: 0 <= k < |items| ==> entries[k] == WriterRun.Parsed(flightOf(items[k]))
  }

  lemma FlatGrows(items: seq<Item>, x: Item, rows: Item -> seq<Excluded>)
    ensures Flat(items + [x], rows) == Flat(items, rows) + rows(x)
  {
    assert (items + [x])[..|items|] == items;
  }

  lemma OneMoreRow(entries: seq<WriterRun.Entry>, items: seq<Item>, x: Item, flightOf: Item -> Tables.Flight, g: string)
    requires RedisView.RowsIn(entries, g) == Flat(items, RowsFor(flightOf, g)) && g != ""
    ensures RedisView.RowsIn(entries + [WriterRun.Parsed(flightOf(x))], g) == Flat(items + [x], RowsFor(flightOf, g))
  {
    var e := WriterRun.Parsed(flightOf(x));
    RedisView.RowsGrow(entries, e, g);
    FlatGrows(items, x, RowsFor(flightOf, g));
    if RedisView.IsOf(e, g) {
      assert RowsFor(flightOf, g)(x) == [RedisView.RowOf(e)];
    } else {
      assert RowsFor(flightOf, g)(x) == [];
      assert RedisView.RowsIn(entries, g) + [] == RedisView.RowsIn(entries, g);
    }
  }

  lemma {:induction false} RowsAreFlat(
    entries: seq<WriterRun.Entry>, items: seq<Item>, flightOf: Item -> Tables.Flight, g: string)
    requires Carries(entries, items, flightOf) && g != ""
    ensures RedisView.RowsIn(entries, g) == Flat(items, RowsFor(flightOf, g))
    decreases |items|
  {
    if items != [] {
      var n := |items| - 1;
      var before, front := entries[..n], items[..n];
      assert entries == before + [entries[n]] && items == front + [items[n]];
      RowsAreFlat(before, front, flightOf, g);
      OneMoreRow(before, front, items[n], flightOf, g);
    }
  }

  lemma {:induction false} NamelessFlightsHaveNoRows(entries: seq<WriterRun.Entry>)
    ensures RowsOf(WriterRun.Passed(entries), "") == []
  {
    if entries != [] {
      NamelessFlightsHaveNoRows(entries[..|entries| - 1]);
      var passed := WriterRun.Passed(entries[..|entries| - 1]);
      var e := entries[|entries| - 1];
      if e.Parsed? && e.flight.gufi != "" {
        assert (passed + [Arrival(e.flight, 0, 0)])[..|passed|] == passed;
      }
    }
  }

  lemma SourceOf(items: seq<Item>, flightOf: Item -> Tables.Flight, g: string, e: Excluded) returns (x: Item)
    requires e in Flat(items, RowsFor(flightOf, g))
    ensures x in items && flightOf(x).gufi == g && e == ProposedRow(Arrival(flightOf(x), 0, 0))
  {
    FlatMembers(items, RowsFor(flightOf, g), e);
    x :| x in items && e in RowsFor(flightOf, g)(x);
  }

  /** Without a clash, equal times of a flight's statements mean equal statuses. */
  lemma SameTimeSameStatus(
    log: seq<WorkerPool.Entry>, items: seq<Item>, flightOf: Item -> Tables.Flight, g: string, e: Excluded, f: Excluded)
    requires NoClash(log, flightOf) && AllInLog(log, items)
    requires e in Flat(items, RowsFor(flightOf, g)) && f in Flat(items, RowsFor(flightOf, g)) && e.time == f.time
    ensures e.status == f.status
  {
    var x := SourceOf(items, flightOf, g, e);
    var y := SourceOf(items, flightOf, g, f);
    assert InLog(log, x) && InLog(log, y);
  }

  lemma NoClashMeansTiesAgree(
    log: seq<WorkerPool.Entry>, entries: seq<WriterRun.Entry>, items: seq<Item>, flightOf: Item -> Tables.Flight)
    requires NoClash(log, flightOf) && AllInLog(log, items) && Carries(entries, items, flightOf)
    ensures WriterRun.TiesAgree(WriterRun.Passed(entries))
  {
    forall g ensures TieSafe(RowsOf(WriterRun.Passed(entries), g)) {
      if g == "" {
        NamelessFlightsHaveNoRows(entries);
      } else {
        RowsAreFlat(entries, items, flightOf, g);
        var rows := Flat(items, RowsFor(flightOf, g));
        forall i, j | 0 <= i < j < |rows| && rows[i].time == rows[j].time ensures rows[i].status == rows[j].status {
          SameTimeSameStatus(log, items, flightOf, g, rows[i], rows[j]);
        }
      }
    }
  }

  lemma NoClashMeansLatestAgree(
    log: seq<WorkerPool.Entry>, items: seq<Item>, flightOf: Item -> Tables.Flight, g: string)
    requires NoClash(log, flightOf) && AllInLog(log, items)
    ensures LatestAgree(Flat(items, RowsFor(flightOf, g)))
  {
    var rows := Flat(items, RowsFor(flightOf, g));
    forall i, j | IsLatest(rows, i) && IsLatest(rows, j) ensures rows[i].status == rows[j].status {
      SameTimeSameStatus(log, items, flightOf, g, rows[i], rows[j]);
    }
  }

  lemma LogOrderStaysInLog(log: seq<WorkerPool.Entry>, items: seq<Item>)
    requires AllInLog(log, items)
    ensures AllInLog(log, InLogOrder(log, items, 0, |log|))
  {
    LogOrderHasTheSameItems(log, items);
  }

  /** The database-writer's own part: whatever its run, a flight's row is that of its topic in log order. */
  lemma WriterKeepsStatus(
    log: seq<WorkerPool.Entry>, items: seq<Item>, flightOf: Item -> Tables.Flight, entries: seq<WriterRun.Entry>,
    batchSize: nat, db0: Db, start: nat, es: seq<WriterRun.Event>, w: WriterRun.State, g: string)
    requires NoClash(log, flightOf) && AllInLog(log, items) && Carries(entries, items, flightOf)
    requires start <= |entries| && g != ""
    requires WriterRun.After(entries, batchSize, WriterRun.Init(db0, Some(start), start), es) == Some(w)
    ensures start <= w.next <= |items|
    ensures SameStatus(
      Lookup(w.db.flights, g),
      RowAfter(Lookup(db0.flights, g), Flat(InLogOrder(log, items[start..w.next], 0, |log|), RowsFor(flightOf, g))))
  {
    TopicIsParseable(log, items, flightOf, entries);
    WriterRun.CommittedGroupIsASinglePass(entries, batchSize, db0, start, es, w);
    var segment, part := entries[start..w.next], items[start..w.next];
    PartIsCarried(log, items, flightOf, entries, start, w.next);
    NoClashMeansTiesAgree(log, segment, part, flightOf);
    PassKeepsStatus(log, part, flightOf, segment, db0, g);
    SameTablesSameRow(w.db, RecordEach(db0, WriterRun.Passed(segment)), g);
  }

  lemma SameTablesSameRow(a: Db, b: Db, g: string)
    requires WriterRun.SameTables(a, b)
    ensures Lookup(a.flights, g) == Lookup(b.flights, g)
  {
  }

  lemma PartIsCarried(
    log: seq<WorkerPool.Entry>, items: seq<Item>, flightOf: Item -> Tables.Flight, entries: seq<WriterRun.Entry>,
    lo: nat, hi: nat)
    requires AllInLog(log, items) && Carries(entries, items, flightOf) && lo <= hi <= |items|
    ensures AllInLog(log, items[lo..hi]) && Carries(entries[lo..hi], items[lo..hi], flightOf)
  {
  }

  /** One in-order pass over the writer's topic gives the status that the feed's own order would. */
  lemma PassKeepsStatus(
    log: seq<WorkerPool.Entry>, items: seq<Item>, flightOf: Item -> Tables.Flight, entries: seq<WriterRun.Entry>,
    db0: Db, g: string)
    requires NoClash(log, flightOf) && AllInLog(log, items) && Carries(entries, items, flightOf) && g != ""
    ensures SameStatus(
      Lookup(RecordEach(db0, WriterRun.Passed(entries)).flights, g),
      RowAfter(Lookup(db0.flights, g), Flat(InLogOrder(log, items, 0, |log|), RowsFor(flightOf, g))))
  {
    FlightsAreIndependent(db0, WriterRun.Passed(entries), g);
    RowsAreFlat(entries, items, flightOf, g);
    LogOrderStaysInLog(log, items);
    NoClashMeansLatestAgree(log, InLogOrder(log, items, 0, |log|), flightOf, g);
    OrderDoesNotShow(log, items, Lookup(db0.flights, g), RowsFor(flightOf, g));
  }

  lemma TopicIsParseable(
    log: seq<WorkerPool.Entry>, items: seq<Item>, flightOf: Item -> Tables.Flight, entries: seq<WriterRun.Entry>)
    requires NoClash(log, flightOf) && AllInLog(log, items) && Carries(entries, items, flightOf)
    ensures WriterRun.AllParseable(entries)
  {
    forall k | 0 <= k < |entries| && entries[k].Parsed? ensures entries[k].flight.timestamp.Some? {
      assert items[k] in items;
    }
  }

  /**
   Normalizer, filter and database-writer, each after any run of its own: if messages of one flight
   with one timestamp carry one status, the stored status and time of every flight are those that its
   messages which came all the way would have given, each once, in the order of the normalizer's input.
   */
  lemma HistoryFollowsTheFeed(
    log: seq<WorkerPool.Entry>, cfg: WorkerPool.Config, steps: seq<WorkerPool.Step>, s: WorkerPool.State,
    log': seq<WorkerPool.Entry>, cfg': WorkerPool.Config, file: Option<LaddStore.ListFile>,
    steps': seq<WorkerPool.Step>, s': WorkerPool.State,
    entries: seq<WriterRun.Entry>, batchSize: nat, db0: Db, start: nat, es: seq<WriterRun.Event>, w: WriterRun.State,
    out: seq<Item>, flightOf: Item -> Tables.Flight, g: string)
    requires WorkerPool.After(log, cfg, WorkerPool.Init(cfg, None), steps) == Some(s)
    requires WorkerPool.After(log', cfg', WorkerPool.Init(cfg', file), steps') == Some(s')
    requires |log'| <= |Output(s.hist)|
    requires forall i :: 0 <= i < |Output(s'.hist)| ==> Output(s'.hist)[i].o < |Output(s.hist)|
    requires out == Through(Output(s.hist), Output(s'.hist)) && Carries(entries, out, flightOf)
    requires start <= |entries| && g != "" && NoClash(log, flightOf)
    requires WriterRun.After(entries, batchSize, WriterRun.Init(db0, Some(start), start), es) == Some(w)
    ensures start <= w.next <= |out|
    ensures SameStatus(
      Lookup(w.db.flights, g),
      RowAfter(Lookup(db0.flights, g), Flat(InLogOrder(log, out[start..w.next], 0, |log|), RowsFor(flightOf, g))))
  {
    ThroughIsInLog(log, cfg, steps, s, log', cfg', file, steps', s');
    WriterKeepsStatus(log, out, flightOf, entries, batchSize, db0, start, es, w, g);
  }
}
