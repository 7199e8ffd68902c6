/**
 The tie rule is exactly what the pools need: without it some run of a pool leaves a flight with a
 status that log order would not have given it.
 */
module PoolExactness {
  import opened Sql
  import opened LaddList
  import opened WorkerPool
  import opened PoolGuarantees
  import opened PoolOrder
  import opened FlightRow
  import opened Redelivery
  import LaddStore

  ghost predicate IsRun(log: seq<Entry>, cfg: Config, file: Option<LaddStore.ListFile>, steps: seq<Step>, s: State) {
    After(log, cfg, Init(cfg, file), steps) == Some(s)
  }

  /** The flight's row does not show the order or the number of deliveries. */
  ghost predicate StatusKept(log: seq<Entry>, out: seq<Item>, rows: Item -> seq<Excluded>) {
    SameStatus(RowAfter(None, Flat(out, rows)), RowAfter(None, Flat(InLogOrder(log, out, 0, |log|), rows)))
  }

  /** Two messages of the flight with the same timestamp and different statuses. */
  ghost predicate Clash(log: seq<Entry>, rows: Item -> seq<Excluded>, x: Item, y: Item) {
    && InLog(log, x) && InLog(log, y) && |rows(x)| == 1 && |rows(y)| == 1
    && rows(x)[0].time == rows(y)[0].time && rows(x)[0].status != rows(y)[0].status
  }

  // ---------- without a clash nothing goes wrong ----------

  lemma NoClashMeansLatestAgree(log: seq<Entry>, items: seq<Item>, rows: Item -> seq<Excluded>)
    requires forall x :: |rows(x)| <= 1
    requires forall x :: x in items ==> InLog(log, x)
    requires forall x, y :: !Clash(log, rows, x, y)
    ensures LatestAgree(Flat(items, rows))
  {
    var es := Flat(items, rows);
    forall i, j | IsLatest(es, i) && IsLatest(es, j) ensures es[i].status == es[j].status {
      var x := ItemOf(items, rows, es[i]);
      var y := ItemOf(items, rows, es[j]);
      assert !Clash(log, rows, x, y);
    }
  }

  lemma ItemOf(items: seq<Item>, rows: Item -> seq<Excluded>, e: Excluded) returns (x: Item)
    requires e in Flat(items, rows) && forall y :: |rows(y)| <= 1
    ensures x in items && rows(x) == [e]
  {
    FlatMembers(items, rows, e);
    x :| x in items && e in rows(x);
  }

  lemma LogOrderIsInLog(log: seq<Entry>, out: seq<Item>, x: Item)
    requires x in InLogOrder(log, out, 0, |log|)
    ensures InLog(log, x)
  {
    InLogOrderCounts(log, out, 0, |log|, x);
    CountIsMultiplicity(InLogOrder(log, out, 0, |log|), x);
  }

  lemma WithoutClashStatusIsKept(
    log: seq<Entry>, cfg: Config, file: Option<LaddStore.ListFile>, steps: seq<Step>, s: State,
    rows: Item -> seq<Excluded>)
    requires forall x :: |rows(x)| <= 1
    requires forall x, y :: !Clash(log, rows, x, y)
    requires IsRun(log, cfg, file, steps, s)
    ensures StatusKept(log, Output(s.hist), rows)
  {
    var items := InLogOrder(log, Output(s.hist), 0, |log|);
    forall x | x in items ensures InLog(log, x) {
      LogOrderIsInLog(log, Output(s.hist), x);
    }
    NoClashMeansLatestAgree(log, items, rows);
    PoolKeepsStatus(log, cfg, file, steps, s, None, rows);
  }

  // ---------- a run that delivers two chosen flights, in either order ----------

  lemma NothingBlocks(e: Entry)
    ensures Suppresses(NOTHING_LOADED, e) <==> e == Envelope(0)
  {
  }

  /** A message that is not published: poison or an empty envelope. */
  lemma PassNothing(log: seq<Entry>, cfg: Config, s: State) returns (steps: seq<Step>, t: State)
    requires IsOpen(cfg) && Idle(s) && s.snap == NOTHING_LOADED && s.fetch < |log| && FlightsIn(log[s.fetch]) == 0
    ensures After(log, cfg, s, steps) == Some(t)
    ensures Idle(t) && t.snap == NOTHING_LOADED && t.fetch == s.fetch + 1 && t.committed == s.committed
    ensures Output(t.hist) == Output(s.hist)
  {
    var a, s1 := HandToWorker(log, cfg, s, 0);
    NothingBlocks(log[s.fetch]);
    var step := if log[s.fetch].Poison? then Poisoned(0, false) else Suppress(0);
    AfterOne(log, cfg, s, a, step, s1);
    var s2 := Next(log, cfg, s1, step);
    var b, s3 := CloseBatch(log, cfg, s2, false);
    AfterConcat(log, cfg, s, a + [step], b);
    steps, t := a + [step] + b, s3;
    OutputGrows(s.hist, s2.hist[|s.hist|]);
  }

  lemma OutputGrows(hist: seq<Event>, e: Event)
    ensures Output(hist + [e]) == Output(hist) + Sent(e)
  {
    assert (hist + [e])[..|hist|] == hist;
  }

  /** A message of which exactly the flights `landed` reach the topic. */
  lemma PassSome(log: seq<Entry>, cfg: Config, s: State, landed: seq<nat>) returns (steps: seq<Step>, t: State)
    requires IsOpen(cfg) && Idle(s) && s.snap == NOTHING_LOADED && s.fetch < |log| && FlightsIn(log[s.fetch]) > 0
    requires SomeOf(landed, FlightsIn(log[s.fetch]))
    ensures After(log, cfg, s, steps) == Some(t)
    ensures Idle(t) && t.snap == NOTHING_LOADED && t.fetch == s.fetch + 1 && t.committed == s.committed
    ensures Output(t.hist) == Output(s.hist) + Items(s.fetch, landed)
  {
    var a, s1 := HandToWorker(log, cfg, s, 0);
    var b, s2 := FailToPublish(log, cfg, s1, landed);
    var c, s3 := CloseBatch(log, cfg, s2, false);
    AfterConcat(log, cfg, s, a, b);
    AfterConcat(log, cfg, s, a + b, c);
    steps, t := a + b + c, s3;
    OutputGrows(s.hist, Finished(s.fetch, PublishFailed(landed, NOTHING_LOADED, s1.batch.value.gate)));
  }

  /** The worker's publication is reported failed, though `landed` reached the topic. */
  lemma FailToPublish(log: seq<Entry>, cfg: Config, s: State, landed: seq<nat>) returns (steps: seq<Step>, t: State)
    requires s.batch.Some? && |s.workers| >= 1 && s.workers[0] == Busy(s.batch.value.lo) && s.batch.value.lo < |log|
    requires s.snap == NOTHING_LOADED && FlightsIn(log[s.batch.value.lo]) > 0
    requires SomeOf(landed, FlightsIn(log[s.batch.value.lo]))
    ensures After(log, cfg, s, steps) == Some(t)
    ensures t.workers == s.workers[0 := Returned(s.batch.value.lo)] && t.channel == s.channel && t.fetch == s.fetch
    ensures t.batch == Some(s.batch.value.(failed := true))
    ensures t.hist == s.hist + [Finished(s.batch.value.lo, PublishFailed(landed, s.snap, s.batch.value.gate))]
    ensures t.committed == s.committed && t.snap == s.snap
  {
    var publish := Publish(0, landed, false);
    NothingBlocks(log[s.batch.value.lo]);
    AfterOne(log, cfg, s, [], Clear(0), s);
    var s1 := Next(log, cfg, s, Clear(0));
    AfterOne(log, cfg, s, [] + [Clear(0)], publish, s1);
    steps, t := [] + [Clear(0)] + [publish], Next(log, cfg, s1, publish);
  }

  /** The next message, of which only `x` reaches the topic, if it is there at all. */
  lemma PassOne(log: seq<Entry>, cfg: Config, s: State, x: Item) returns (steps: seq<Step>, t: State)
    requires IsOpen(cfg) && Idle(s) && s.snap == NOTHING_LOADED && s.fetch < |log| && InLog(log, x)
    ensures After(log, cfg, s, steps) == Some(t)
    ensures Idle(t) && t.snap == NOTHING_LOADED && t.fetch == s.fetch + 1 && t.committed == s.committed
    ensures Output(t.hist) == Output(s.hist) + if s.fetch == x.o then [x] else []
  {
    if FlightsIn(log[s.fetch]) == 0 {
      steps, t := PassNothing(log, cfg, s);
    } else {
      var landed: seq<nat> := if s.fetch == x.o then [x.k] else [];
      steps, t := PassSome(log, cfg, s, landed);
      assert Items(s.fetch, landed) == if s.fetch == x.o then [x] else [];
    }
  }

  lemma {:induction false} PassUpTo(
    log: seq<Entry>, cfg: Config, s: State, m: nat, x: Item) returns (steps: seq<Step>, t: State)
    requires IsOpen(cfg) && Idle(s) && s.snap == NOTHING_LOADED && s.fetch <= m <= |log| && InLog(log, x)
    ensures After(log, cfg, s, steps) == Some(t)
    ensures Idle(t) && t.snap == NOTHING_LOADED && t.fetch == m && t.committed == s.committed
    ensures Output(t.hist) == Output(s.hist) + if s.fetch <= x.o < m then [x] else []
    decreases m
  {
    if m == s.fetch {
      steps, t := [], s;
    } else {
      var a, s1 := PassUpTo(log, cfg, s, m - 1, x);
      var b, s2 := PassOne(log, cfg, s1, x);
      AfterConcat(log, cfg, s, a, b);
      steps, t := a + b, s2;
    }
  }

  lemma CrashAndRestart(log: seq<Entry>, cfg: Config, s0: State, steps: seq<Step>, s: State) returns (t: State)
    requires After(log, cfg, s0, steps) == Some(s) && |s.workers| >= 1
    ensures After(log, cfg, s0, steps + [Crash(None)]) == Some(t)
    ensures Idle(t) && t.snap == NOTHING_LOADED && t.fetch == s.committed && t.committed == s.committed
    ensures Output(t.hist) == Output(s.hist)
  {
    AfterOne(log, cfg, s0, steps, Crash(None), s);
    t := Next(log, cfg, s, Crash(None));
    OutputGrows(s.hist, Crashed);
  }

  /** Let only `x` land, crash before anything is committed, and let only `y` land. */
  lemma DeliverTwo(log: seq<Entry>, cfg: Config, x: Item, y: Item) returns (steps: seq<Step>, s: State)
    requires IsOpen(cfg) && InLog(log, x) && InLog(log, y)
    ensures IsRun(log, cfg, None, steps, s)
    ensures Output(s.hist) == [x, y]
  {
    var s0 := Init(cfg, None);
    InitIsIdle(cfg);
    var a, s1 := PassUpTo(log, cfg, s0, |log|, x);
    var s2 := CrashAndRestart(log, cfg, s0, a, s1);
    var b, s3 := PassUpTo(log, cfg, s2, |log|, y);
    AfterConcat(log, cfg, s0, a + [Crash(None)], b);
    steps, s := a + [Crash(None)] + b, s3;
  }

  // ---------- with a clash some run shows the order ----------

  lemma {:induction false} FlightsAtByMembers(o: nat, n: nat, a: seq<Item>, b: seq<Item>)
    requires SameItems(a, b)
    ensures FlightsAt(o, n, a) == FlightsAt(o, n, b)
  {
    if n > 0 {
      FlightsAtByMembers(o, n - 1, a, b);
    }
  }

  lemma {:induction false} InLogOrderByMembers(log: seq<Entry>, a: seq<Item>, b: seq<Item>, lo: nat, hi: nat)
    requires lo <= hi <= |log| && SameItems(a, b)
    ensures InLogOrder(log, a, lo, hi) == InLogOrder(log, b, lo, hi)
    decreases hi
  {
    if lo < hi {
      InLogOrderByMembers(log, a, b, lo, hi - 1);
      FlightsAtByMembers(hi - 1, FlightsIn(log[hi - 1]), a, b);
    }
  }

  lemma TwoDelivered(x: Item, y: Item, rows: Item -> seq<Excluded>)
    requires |rows(x)| == 1 && |rows(y)| == 1 && rows(x)[0].time == rows(y)[0].time
    ensures RowAfter(None, Flat([x, y], rows)).Some?
    ensures RowAfter(None, Flat([x, y], rows)).value.status == rows(y)[0].status
  {
    var e, f := rows(x)[0], rows(y)[0];
    assert [x, y][..1] == [x] && [x][..0] == [];
    assert Flat([x], rows) == [e];
    assert Flat([x, y], rows) == [e] + [f];
    RowAfterOne(None, [e], f);
    assert [e] == [] + [e];
    RowAfterOne(None, [], e);
  }

  lemma ClashShows(log: seq<Entry>, rows: Item -> seq<Excluded>, x: Item, y: Item)
    requires Clash(log, rows, x, y)
    ensures !StatusKept(log, [x, y], rows) || !StatusKept(log, [y, x], rows)
  {
    InLogOrderByMembers(log, [x, y], [y, x], 0, |log|);
    TwoDelivered(x, y, rows);
    TwoDelivered(y, x, rows);
  }

  /**
   For any pool that checks no list, and one flight, whose message in an item `rows` picks: every run
   over the log leaves the status and time that log order gives, if and only if no two messages of the
   flight share a timestamp and differ in status.
   */
  lemma PoolsKeepStatusExactlyWithoutClash(log: seq<Entry>, cfg: Config, rows: Item -> seq<Excluded>)
    requires IsOpen(cfg) && forall x :: |rows(x)| <= 1
    ensures (forall file, steps, s :: IsRun(log, cfg, file, steps, s) ==> StatusKept(log, Output(s.hist), rows))
       <==> (forall x, y :: !Clash(log, rows, x, y))
  {
    if x, y :| Clash(log, rows, x, y) {
      var steps, s := DeliverTwo(log, cfg, x, y);
      var steps', s' := DeliverTwo(log, cfg, y, x);
      ClashShows(log, rows, x, y);
      assert !StatusKept(log, Output(s.hist), rows) || !StatusKept(log, Output(s'.hist), rows);
    } else {
      forall file, steps, s | IsRun(log, cfg, file, steps, s) ensures StatusKept(log, Output(s.hist), rows) {
        WithoutClashStatusIsKept(log, cfg, file, steps, s, rows);
      }
    }
  }
}
