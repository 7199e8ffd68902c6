/**
 Interleaving alone is enough to show a clash: two workers, no failure, no crash, one batch.
 */
module PoolInterleaving {
  import opened Sql
  import opened LaddList
  import opened WorkerPool
  import opened PoolGuarantees
  import opened PoolOrder
  import opened PoolExactness
  import opened FlightRow
  import WriterExactness

  /** Nothing failed and nothing crashed. */
  ghost predicate Smooth(hist: seq<Event>) {
    forall i :: 0 <= i < |hist| ==> !BadEvent(hist[i]) && !hist[i].Crashed?
  }

  /** Every message carries flights, as what the normalizer writes does. */
  ghost predicate AllCarry(log: seq<Entry>) {
    forall k :: 0 <= k < |log| ==> FlightsIn(log[k]) > 0
  }

  function AllItems(log: seq<Entry>, o: nat): seq<Item>
    requires o < |log|
  {
    Items(o, AllOf(FlightsIn(log[o])))
  }

  /** Everything at the offsets from `lo` to `hi`, in log order. */
  function Everything(log: seq<Entry>, lo: nat, hi: nat): seq<Item>
    requires lo <= hi <= |log|
    decreases hi
  {
    if lo == hi then [] else Everything(log, lo, hi - 1) + AllItems(log, hi - 1)
  }

  /** From `hist` to `all` these items were written, and nothing went wrong. */
  ghost predicate Wrote(hist: seq<Event>, all: seq<Event>, items: seq<Item>) {
    Output(all) == Output(hist) + items && (Smooth(hist) ==> Smooth(all))
  }

  lemma WroteNothing(hist: seq<Event>)
    ensures Wrote(hist, hist, [])
  {
    assert Output(hist) + [] == Output(hist);
  }

  lemma WroteInTurn(a: seq<Event>, b: seq<Event>, c: seq<Event>, x: seq<Item>, y: seq<Item>, all: seq<Item>)
    requires Wrote(a, b, x) && Wrote(b, c, y) && all == x + y
    ensures Wrote(a, c, all)
  {
    assert Output(a) + (x + y) == (Output(a) + x) + y;
  }

  lemma WroteOne(log: seq<Entry>, hist: seq<Event>, o: nat, seen: Snapshot, gate: Gate)
    requires o < |log|
    ensures Wrote(hist, hist + [Finished(o, Published(AllOf(FlightsIn(log[o])), seen, gate))], AllItems(log, o))
  {
    OutputGrows(hist, Finished(o, Published(AllOf(FlightsIn(log[o])), seen, gate)));
  }

  lemma WroteCommit(hist: seq<Event>, hi: nat)
    ensures Wrote(hist, hist + [CommitTo(hi)], [])
  {
    OutputGrows(hist, CommitTo(hi));
  }

  lemma EverythingGrows(log: seq<Entry>, lo: nat, hi: nat)
    requires lo < hi <= |log|
    ensures Everything(log, lo, hi) == Everything(log, lo, hi - 1) + AllItems(log, hi - 1)
  {
  }

  lemma InTurn(log: seq<Entry>, cfg: Config, s: State, a: seq<Step>, t: State, b: seq<Step>, u: State)
    requires After(log, cfg, s, a) == Some(t) && After(log, cfg, t, b) == Some(u)
    ensures After(log, cfg, s, a + b) == Some(u)
  {
    AfterConcat(log, cfg, s, a, b);
  }

  // ---------- the run ----------

  lemma {:induction false} PublishUpTo(log: seq<Entry>, cfg: Config, s: State, m: nat)
    returns (steps: seq<Step>, t: State)
    requires IsOpen(cfg) && AllCarry(log) && Idle(s) && s.snap == NOTHING_LOADED && s.fetch <= m <= |log|
    ensures After(log, cfg, s, steps) == Some(t)
    ensures Idle(t) && t.snap == NOTHING_LOADED && t.fetch == m && |t.workers| == |s.workers|
    ensures Wrote(s.hist, t.hist, Everything(log, s.fetch, m))
    decreases m
  {
    if m == s.fetch {
      steps, t := [], s;
      WroteNothing(s.hist);
    } else {
      var a, s1 := PublishUpTo(log, cfg, s, m - 1);
      var b, s2 := PublishOne(log, cfg, s1);
      InTurn(log, cfg, s, a, s1, b, s2);
      var before, one, all := Everything(log, s.fetch, m - 1), AllItems(log, m - 1), Everything(log, s.fetch, m);
      assert all == before + one by {
        EverythingGrows(log, s.fetch, m);
      }
      WroteInTurn(s.hist, s1.hist, s2.hist, before, one, all);
      steps, t := a + b, s2;
    }
  }

  lemma PublishOne(log: seq<Entry>, cfg: Config, s: State) returns (steps: seq<Step>, t: State)
    requires IsOpen(cfg) && AllCarry(log) && Idle(s) && s.snap == NOTHING_LOADED && s.fetch < |log|
    ensures After(log, cfg, s, steps) == Some(t)
    ensures Idle(t) && t.snap == NOTHING_LOADED && t.fetch == s.fetch + 1 && |t.workers| == |s.workers|
    ensures Wrote(s.hist, t.hist, AllItems(log, s.fetch))
  {
    NothingBlocks(log[s.fetch]);
    steps, t := SingleBatch(log, cfg, s, true);
    WorkersStay(log, cfg, s, steps, t);
    var o, gate := s.fetch, Gate(s.snap, 0);
    var done := s.hist + [Finished(o, Published(AllOf(FlightsIn(log[o])), s.snap, gate))];
    WroteOne(log, s.hist, o, s.snap, gate);
    WroteCommit(done, o + 1);
    assert AllItems(log, o) + [] == AllItems(log, o);
    WroteInTurn(s.hist, done, t.hist, AllItems(log, o), [], AllItems(log, o));
  }

  lemma {:induction false} WorkersStay(log: seq<Entry>, cfg: Config, s: State, steps: seq<Step>, t: State)
    requires After(log, cfg, s, steps) == Some(t)
    ensures |t.workers| == |s.workers|
  {
    if steps != [] {
      WorkersStay(log, cfg, s, steps[..|steps| - 1], After(log, cfg, s, steps[..|steps| - 1]).value);
    }
  }

  /** The first worker holds offset `a` while the second has done everything up to offset `o`. */
  ghost predicate Holding(s: State, a: nat, o: nat, n: nat) {
    && s.batch.Some? && s.batch.value.hi == n && s.batch.value.sent == o && s.batch.value.pending == n - o + 1
    && !s.batch.value.failed && s.channel == [] && s.snap == NOTHING_LOADED && s.fetch == n
    && |s.workers| >= 2 && s.workers[0] == Busy(a)
    && forall w :: 1 <= w < |s.workers| ==> s.workers[w] == Free
  }

  lemma StartBatch(log: seq<Entry>, cfg: Config, s: State) returns (steps: seq<Step>, t: State)
    requires IsOpen(cfg) && Idle(s) && |s.workers| >= 2 && s.snap == NOTHING_LOADED
    requires s.fetch < |log| <= s.fetch + cfg.batchSize
    ensures After(log, cfg, s, steps) == Some(t)
    ensures Holding(t, s.fetch, s.fetch + 1, |log|) && t.hist == s.hist
  {
    var fetch := Fetch(|log| - s.fetch, 0);
    AfterOne(log, cfg, s, [], fetch, s);
    var s1 := Next(log, cfg, s, fetch);
    AfterOne(log, cfg, s, [] + [fetch], Send, s1);
    var s2 := Next(log, cfg, s1, Send);
    AfterOne(log, cfg, s, [] + [fetch] + [Send], Take(0), s2);
    steps, t := [] + [fetch] + [Send] + [Take(0)], Next(log, cfg, s2, Take(0));
  }

  lemma SendToSecond(log: seq<Entry>, cfg: Config, s: State, a: nat, o: nat) returns (steps: seq<Step>, t: State)
    requires IsOpen(cfg) && Holding(s, a, o, |log|) && o < |log|
    ensures After(log, cfg, s, steps) == Some(t)
    ensures t == s.(workers := s.workers[1 := Busy(o)], batch := Some(s.batch.value.(sent := o + 1)),
                    stats := s.stats.(taken := s.stats.taken + 1))
  {
    AfterOne(log, cfg, s, [], Send, s);
    var s1 := Next(log, cfg, s, Send);
    AfterOne(log, cfg, s, [] + [Send], Take(1), s1);
    steps, t := [] + [Send] + [Take(1)], Next(log, cfg, s1, Take(1));
  }

  /** The second worker takes, publishes and finishes the next message. */
  lemma OvertakeOne(log: seq<Entry>, cfg: Config, s: State, a: nat, o: nat) returns (steps: seq<Step>, t: State)
    requires IsOpen(cfg) && AllCarry(log) && Holding(s, a, o, |log|) && o < |log|
    ensures After(log, cfg, s, steps) == Some(t)
    ensures Holding(t, a, o + 1, |log|)
    ensures Wrote(s.hist, t.hist, AllItems(log, o))
  {
    NothingBlocks(log[o]);
    var b, s1 := SendToSecond(log, cfg, s, a, o);
    var c, s2 := PublishAndReturn(log, cfg, s1, 1, true);
    InTurn(log, cfg, s, b, s1, c, s2);
    t := SecondIsDone(log, cfg, s, b + c, s1, s2, a, o);
    steps := b + c + [Done(1)];
    WroteOne(log, s.hist, o, s1.snap, s1.batch.value.gate);
  }

  lemma SecondIsDone(log: seq<Entry>, cfg: Config, s: State, steps: seq<Step>, mid: State, t: State, a: nat, o: nat)
    returns (u: State)
    requires Holding(s, a, o, |log|) && o < |log| && After(log, cfg, s, steps) == Some(t)
    requires mid == s.(workers := s.workers[1 := Busy(o)], batch := Some(s.batch.value.(sent := o + 1)),
                       stats := s.stats.(taken := s.stats.taken + 1))
    requires t.workers == mid.workers[1 := Returned(o)] && t.batch == mid.batch
    requires t.channel == mid.channel && t.fetch == mid.fetch && t.snap == mid.snap
    ensures After(log, cfg, s, steps + [Done(1)]) == Some(u)
    ensures Holding(u, a, o + 1, |log|) && u.hist == t.hist
  {
    AfterOne(log, cfg, s, steps, Done(1), t);
    u := Next(log, cfg, t, Done(1));
  }

  lemma {:induction false} OvertakeUpTo(log: seq<Entry>, cfg: Config, s: State, a: nat, o: nat, m: nat)
    returns (steps: seq<Step>, t: State)
    requires IsOpen(cfg) && AllCarry(log) && Holding(s, a, o, |log|) && o <= m <= |log|
    ensures Overtook(log, cfg, s, a, o, m, steps, t)
    decreases m
  {
    if m == o {
      steps, t := [], s;
      WroteNothing(s.hist);
    } else {
      var b, s1 := OvertakeUpTo(log, cfg, s, a, o, m - 1);
      steps, t := OvertakeOneMore(log, cfg, s, a, o, m, b, s1);
    }
  }

  /** These steps let the second worker do everything from offset `o` up to `m`. */
  ghost predicate Overtook(log: seq<Entry>, cfg: Config, s: State, a: nat, o: nat, m: nat, steps: seq<Step>, t: State)
    requires o <= m <= |log|
  {
    && After(log, cfg, s, steps) == Some(t) && Holding(t, a, m, |log|)
    && Wrote(s.hist, t.hist, Everything(log, o, m))
  }

  lemma OvertakeOneMore(log: seq<Entry>, cfg: Config, s: State, a: nat, o: nat, m: nat, before: seq<Step>, mid: State)
    returns (steps: seq<Step>, t: State)
    requires IsOpen(cfg) && AllCarry(log) && o < m <= |log| && Overtook(log, cfg, s, a, o, m - 1, before, mid)
    ensures Overtook(log, cfg, s, a, o, m, steps, t)
  {
    var more;
    more, t := OvertakeOne(log, cfg, mid, a, m - 1);
    steps := before + more;
    InTurn(log, cfg, s, before, mid, more, t);
    var done, one, all := Everything(log, o, m - 1), AllItems(log, m - 1), Everything(log, o, m);
    assert all == done + one by {
      EverythingGrows(log, o, m);
    }
    WroteInTurn(s.hist, mid.hist, t.hist, done, one, all);
  }

  lemma FinishFirst(log: seq<Entry>, cfg: Config, s: State, a: nat) returns (steps: seq<Step>, t: State)
    requires IsOpen(cfg) && AllCarry(log) && Holding(s, a, |log|, |log|) && a < |log|
    ensures After(log, cfg, s, steps) == Some(t)
    ensures Wrote(s.hist, t.hist, AllItems(log, a))
  {
    NothingBlocks(log[a]);
    var b, s1 := PublishAndReturn(log, cfg, s, 0, true);
    var c, s2 := CloseBatch(log, cfg, s1, true);
    InTurn(log, cfg, s, b, s1, c, s2);
    steps, t := b + c, s2;
    WroteOne(log, s.hist, a, s.snap, s.batch.value.gate);
    WroteCommit(s1.hist, |log|);
    assert AllItems(log, a) + [] == AllItems(log, a);
    WroteInTurn(s.hist, s1.hist, s2.hist, AllItems(log, a), [], AllItems(log, a));
  }

  lemma OvertakenBatch(log: seq<Entry>, cfg: Config, s: State, a: nat) returns (steps: seq<Step>, t: State)
    requires IsOpen(cfg) && AllCarry(log) && Idle(s) && |s.workers| >= 2 && s.snap == NOTHING_LOADED
    requires s.fetch == a < |log| <= a + cfg.batchSize
    ensures After(log, cfg, s, steps) == Some(t)
    ensures Wrote(s.hist, t.hist, Everything(log, a + 1, |log|) + AllItems(log, a))
  {
    var p, s1 := StartBatch(log, cfg, s);
    var q, s2 := OvertakeUpTo(log, cfg, s1, a, a + 1, |log|);
    var r, s3 := FinishFirst(log, cfg, s2, a);
    InTurn(log, cfg, s, p, s1, q, s2);
    InTurn(log, cfg, s, p + q, s2, r, s3);
    var rest, first := Everything(log, a + 1, |log|), AllItems(log, a);
    WroteInTurn(s1.hist, s2.hist, s3.hist, rest, first, rest + first);
    steps, t := p + q + r, s3;
  }

  /** The message at offset `a` is overtaken by all that follow it, without a failure or a crash. */
  lemma Overtaken(log: seq<Entry>, cfg: Config, a: nat) returns (steps: seq<Step>, s: State)
    requires IsOpen(cfg) && cfg.workers >= 2 && AllCarry(log) && a < |log| <= a + cfg.batchSize
    ensures IsRun(log, cfg, None, steps, s) && Smooth(s.hist)
    ensures Output(s.hist) == Everything(log, 0, a) + Everything(log, a + 1, |log|) + AllItems(log, a)
  {
    InitIsIdle(cfg);
    var s0 := Init(cfg, None);
    var p, s1 := PublishUpTo(log, cfg, s0, a);
    var q, s2 := OvertakenBatch(log, cfg, s1, a);
    InTurn(log, cfg, s0, p, s1, q, s2);
    var before, rest, first := Everything(log, 0, a), Everything(log, a + 1, |log|), AllItems(log, a);
    WroteInTurn([], s1.hist, s2.hist, before, rest + first, before + (rest + first));
    steps, s := p + q, s2;
    FromNothing(s.hist, before, rest, first);
  }

  lemma FromNothing(hist: seq<Event>, a: seq<Item>, b: seq<Item>, c: seq<Item>)
    requires Wrote([], hist, a + (b + c))
    ensures Smooth(hist) && Output(hist) == a + b + c
  {
    assert Smooth([]);
    assert [] + (a + (b + c)) == a + b + c;
  }

  // ---------- the status it leaves ----------

  /** No message of the flight is newer than `t`. */
  ghost predicate NoneNewer(log: seq<Entry>, rows: Item -> seq<Excluded>, t: int) {
    forall x, e :: InLog(log, x) && e in rows(x) ==> e.time <= t
  }

  lemma LastItemDecides(log: seq<Entry>, items: seq<Item>, x: Item, rows: Item -> seq<Excluded>, e: Excluded)
    requires AllInLog(log, items + [x]) && rows(x) == [e] && NoneNewer(log, rows, e.time)
    ensures RowAfter(None, Flat(items + [x], rows)).Some?
    ensures RowAfter(None, Flat(items + [x], rows)).value.status == e.status
  {
    var es := Flat(items + [x], rows);
    assert (items + [x])[..|items|] == items;
    var n := |es| - 1;
    assert es[n] == e;
    forall k | 0 <= k < |es| ensures es[k].time <= e.time {
      FlatMembers(items + [x], rows, es[k]);
      var y :| y in items + [x] && es[k] in rows(y);
      assert InLog(log, y);
    }
    assert IsLatest(es, n);
    WriterExactness.TieEndsOnLast(None, es, n);
  }

  lemma {:induction false} EverythingIsInLog(log: seq<Entry>, lo: nat, hi: nat)
    requires lo <= hi <= |log|
    ensures AllInLog(log, Everything(log, lo, hi))
    decreases hi
  {
    if lo < hi {
      EverythingIsInLog(log, lo, hi - 1);
      forall x | x in AllItems(log, hi - 1) ensures InLog(log, x) {
      }
    }
  }

  /** In log order the last message comes last. */
  lemma LogOrderEndsOnLast(log: seq<Entry>, out: seq<Item>, y: Item)
    requires log != [] && FlightsIn(log[|log| - 1]) == 1 && y == Item(|log| - 1, 0) && y in out && AllInLog(log, out)
    ensures InLogOrder(log, out, 0, |log|) == InLogOrder(log, out, 0, |log| - 1) + [y]
    ensures AllInLog(log, InLogOrder(log, out, 0, |log|))
  {
    LogOrderHasTheSameItems(log, out);
    assert FlightsAt(|log| - 1, 0, out) == [];
    assert FlightsAt(|log| - 1, 1, out) == [] + [y];
  }

  lemma OvertakenItems(log: seq<Entry>, a: nat, out: seq<Item>, x: Item, y: Item)
    requires a < |log| - 1 && FlightsIn(log[a]) == 1 && FlightsIn(log[|log| - 1]) == 1
    requires out == Everything(log, 0, a) + Everything(log, a + 1, |log|) + AllItems(log, a)
    requires x == Item(a, 0) && y == Item(|log| - 1, 0)
    ensures AllInLog(log, out) && y in out
    ensures out == Everything(log, 0, a) + Everything(log, a + 1, |log|) + [x]
  {
    assert AllOf(1) == [0];
    assert AllItems(log, a) == [x] && AllItems(log, |log| - 1) == [y];
    EverythingIsInLog(log, 0, a);
    EverythingIsInLog(log, a + 1, |log|);
    EverythingGrows(log, a + 1, |log|);
  }

  lemma OvertakenShows(log: seq<Entry>, a: nat, out: seq<Item>, rows: Item -> seq<Excluded>, e: Excluded, f: Excluded)
    requires a < |log| - 1 && FlightsIn(log[a]) == 1 && FlightsIn(log[|log| - 1]) == 1
    requires out == Everything(log, 0, a) + Everything(log, a + 1, |log|) + AllItems(log, a)
    requires rows(Item(a, 0)) == [e] && rows(Item(|log| - 1, 0)) == [f]
    requires e.time == f.time && e.status != f.status && NoneNewer(log, rows, e.time)
    ensures !StatusKept(log, out, rows)
  {
    var x, y := Item(a, 0), Item(|log| - 1, 0);
    var front := Everything(log, 0, a) + Everything(log, a + 1, |log|);
    OvertakenItems(log, a, out, x, y);
    LastItemDecides(log, front, x, rows, e);
    LogOrderEndsOnLast(log, out, y);
    LastItemDecides(log, InLogOrder(log, out, 0, |log| - 1), y, rows, f);
  }

  /**
   Two messages of a flight that fit one batch, newest of the log, with one timestamp and two statuses:
   any pool with two workers has a run without failure or crash that leaves the other status.
   */
  lemma InterleavingAloneShowsAClash(
    log: seq<Entry>, cfg: Config, a: nat, rows: Item -> seq<Excluded>, e: Excluded, f: Excluded)
    returns (steps: seq<Step>, s: State)
    requires IsOpen(cfg) && cfg.workers >= 2 && AllCarry(log) && a < |log| - 1 < a + cfg.batchSize
    requires FlightsIn(log[a]) == 1 && FlightsIn(log[|log| - 1]) == 1
    requires rows(Item(a, 0)) == [e] && rows(Item(|log| - 1, 0)) == [f]
    requires e.time == f.time && e.status != f.status && NoneNewer(log, rows, e.time)
    ensures IsRun(log, cfg, None, steps, s) && Smooth(s.hist)
    ensures !StatusKept(log, Output(s.hist), rows)
  {
    steps, s := Overtaken(log, cfg, a);
    OvertakenShows(log, a, Output(s.hist), rows, e, f);
  }
}
