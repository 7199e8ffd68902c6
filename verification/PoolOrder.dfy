/**
 The order in which the pools write: permuted within a batch, never across batches of a session, and
 why a flight's stored status does not notice, redelivery after crashes included.
 */
module PoolOrder {
  import opened Sql
  import opened WorkerPool
  import opened FlightRow
  import opened Redelivery
  import LaddStore

  /** The `k`-th flight of the message at offset `o`. */
  datatype Item = Item(o: nat, k: nat)

  function Items(o: nat, landed: seq<nat>): seq<Item> {
    seq(|landed|, i requires 0 <= i < |landed| => Item(o, landed[i]))
  }

  function Sent(e: Event): seq<Item> {
    if e.Finished? && Publishes(e.outcome) then Items(e.o, e.outcome.landed) else []
  }

  /** What the stage has written to its output topic, also when it was told that the write failed. */
  function Output(hist: seq<Event>): seq<Item> {
    if hist == [] then [] else Output(hist[..|hist| - 1]) + Sent(hist[|hist| - 1])
  }

  /** Those of the first `n` flights at offset `o` that occur in `out`. */
  function FlightsAt(o: nat, n: nat, out: seq<Item>): seq<Item> {
    if n == 0 then []
    else FlightsAt(o, n - 1, out) + if Item(o, n - 1) in out then [Item(o, n - 1)] else []
  }

  /** Those of the flights at offsets `lo` to `hi` that occur in `out`, each once, in log order. */
  function InLogOrder(log: seq<Entry>, out: seq<Item>, lo: nat, hi: nat): seq<Item>
    requires lo <= hi <= |log|
    decreases hi
  {
    if lo == hi then []
    else InLogOrder(log, out, lo, hi - 1) + FlightsAt(hi - 1, FlightsIn(log[hi - 1]), out)
  }

  predicate InLog(log: seq<Entry>, x: Item) {
    x.o < |log| && x.k < FlightsIn(log[x.o])
  }

  // ---------- counting ----------

  /** How often an item occurs. */
  function Count(s: seq<Item>, x: Item): nat {
    if s == [] then 0 else Count(s[..|s| - 1], x) + One(s[|s| - 1] == x)
  }

  lemma {:induction false} CountsAdd(a: seq<Item>, b: seq<Item>, x: Item)
    ensures Count(a + b, x) == Count(a, x) + Count(b, x)
    decreases |b|
  {
    if b == [] {
      assert a + b == a;
    } else {
      assert (a + b)[..|a + b| - 1] == a + b[..|b| - 1];
      CountsAdd(a, b[..|b| - 1], x);
    }
  }

  lemma CountOfOne(y: Item, kept: bool, x: Item)
    ensures Count(if kept then [y] else [], x) == One(kept && x == y)
  {
    assert [y][..0] == [];
  }

  lemma {:induction false} CountIsMultiplicity(s: seq<Item>, x: Item)
    ensures Count(s, x) == multiset(s)[x]
    ensures Count(s, x) > 0 <==> x in s
  {
    if s != [] {
      CountIsMultiplicity(s[..|s| - 1], x);
      assert s == s[..|s| - 1] + [s[|s| - 1]];
    }
  }

  lemma {:induction false} FlightsAtCounts(o: nat, n: nat, out: seq<Item>, x: Item)
    ensures Count(FlightsAt(o, n, out), x) == One(x.o == o && x.k < n && x in out)
  {
    if n > 0 {
      FlightsAtCounts(o, n - 1, out, x);
      CountsAdd(FlightsAt(o, n - 1, out), if Item(o, n - 1) in out then [Item(o, n - 1)] else [], x);
      CountOfOne(Item(o, n - 1), Item(o, n - 1) in out, x);
    }
  }

  predicate Between(log: seq<Entry>, out: seq<Item>, lo: nat, hi: nat, x: Item) {
    lo <= x.o < hi && InLog(log, x) && x in out
  }

  lemma {:induction false} InLogOrderCounts(log: seq<Entry>, out: seq<Item>, lo: nat, hi: nat, x: Item)
    requires lo <= hi <= |log|
    ensures Count(InLogOrder(log, out, lo, hi), x) == One(Between(log, out, lo, hi, x))
    decreases hi
  {
    if lo < hi {
      var n := FlightsIn(log[hi - 1]);
      InLogOrderCounts(log, out, lo, hi - 1, x);
      CountsAdd(InLogOrder(log, out, lo, hi - 1), FlightsAt(hi - 1, n, out), x);
      FlightsAtCounts(hi - 1, n, out, x);
    }
  }

  lemma {:induction false} ItemsCount(o: nat, landed: seq<nat>, n: nat, x: Item)
    requires SomeOf(landed, n)
    ensures Count(Items(o, landed), x) <= One(x.o == o)
    ensures x in Items(o, landed) ==> x.o == o && x.k < n && x.k <= landed[|landed| - 1]
  {
    if landed != [] {
      var m := |landed| - 1;
      ItemsCount(o, landed[..m], n, x);
      assert Items(o, landed) == Items(o, landed[..m]) + [Item(o, landed[m])];
      CountsAdd(Items(o, landed[..m]), [Item(o, landed[m])], x);
      CountOfOne(Item(o, landed[m]), true, x);
      CountIsMultiplicity(Items(o, landed[..m]), x);
    }
  }

  /** Nothing is written more often than its message finished, and only flights of the log are written. */
  lemma {:induction false} OutputIsCountedByTimes(log: seq<Entry>, hist: seq<Event>, x: Item)
    requires LandingsAreProper(log, hist)
    ensures Count(Output(hist), x) <= Times(hist, x.o)
    ensures x in Output(hist) ==> InLog(log, x)
  {
    if hist != [] {
      var n := |hist| - 1;
      var e := hist[n];
      assert LandingsAreProper(log, hist[..n]);
      OutputIsCountedByTimes(log, hist[..n], x);
      CountsAdd(Output(hist[..n]), Sent(e), x);
      if e.Finished? && Publishes(e.outcome) {
        ItemsCount(e.o, e.outcome.landed, FlightsIn(log[e.o]), x);
      }
    }
  }

  // ---------- within a batch, and across batches ----------

  lemma LandingsSince(log: seq<Entry>, hist: seq<Event>, from: nat)
    requires from <= |hist| && LandingsAreProper(log, hist)
    ensures LandingsAreProper(log, hist[from..])
  {
    assert forall i :: 0 <= i < |hist| - from ==> hist[from..][i] == hist[from + i];
  }

  lemma SameCounts(a: seq<Item>, b: seq<Item>)
    requires forall x :: Count(a, x) == Count(b, x)
    ensures multiset(a) == multiset(b)
  {
    forall x ensures multiset(a)[x] == multiset(b)[x] {
      CountIsMultiplicity(a, x);
      CountIsMultiplicity(b, x);
    }
  }

  /**
   Within a batch the workers can only permute: what has been written when the barrier opens is a
   permutation of the same flights in log order.
   */
  lemma BatchOutputIsAPermutation(
    log: seq<Entry>, cfg: Config, file: Option<LaddStore.ListFile>, steps: seq<Step>, s: State)
    requires After(log, cfg, Init(cfg, file), steps) == Some(s)
    requires BarrierOpen(s)
    ensures s.batch.value.lo <= s.batch.value.hi <= |log| && s.batch.value.mark <= |s.hist|
    ensures var b := s.batch.value;
      var out := Output(s.hist[b.mark..]);
      multiset(out) == multiset(InLogOrder(log, out, b.lo, b.hi))
  {
    EveryRunKeepsTheInvariant(log, cfg, file, steps, s);
    BarrierMeansAllFinished(log, cfg, s);
    var b := s.batch.value;
    var es := s.hist[b.mark..];
    LandingsSince(log, s.hist, b.mark);
    var out := Output(es);
    var inOrder := InLogOrder(log, out, b.lo, b.hi);
    forall x ensures Count(out, x) == Count(inOrder, x) {
      OutputIsCountedByTimes(log, es, x);
      InLogOrderCounts(log, out, b.lo, b.hi, x);
      CountIsMultiplicity(out, x);
    }
    SameCounts(out, inOrder);
  }

  /** Nothing crosses a batch: what the session finished earlier lies below the batch, the rest inside it. */
  lemma OutputNeverCrossesBatches(
    log: seq<Entry>, cfg: Config, file: Option<LaddStore.ListFile>, steps: seq<Step>, s: State, i: nat)
    requires After(log, cfg, Init(cfg, file), steps) == Some(s)
    requires s.batch.Some? && s.session <= i < |s.hist| && s.hist[i].Finished?
    ensures if i < s.batch.value.mark then s.hist[i].o < s.batch.value.lo
            else s.batch.value.lo <= s.hist[i].o < s.batch.value.hi
  {
    EveryRunKeepsTheInvariant(log, cfg, file, steps, s);
    if i >= s.batch.value.mark {
      FinishedSinceMarkIsInBatch(log, cfg, s, i);
    }
  }

  // ---------- what a flight's row receives ----------

  /** The statements one flight's row receives: `rows` picks that flight's message, if any, out of an item. */
  function Flat(items: seq<Item>, rows: Item -> seq<Excluded>): seq<Excluded> {
    if items == [] then [] else Flat(items[..|items| - 1], rows) + rows(items[|items| - 1])
  }

  lemma {:induction false} FlatMembers(items: seq<Item>, rows: Item -> seq<Excluded>, e: Excluded)
    ensures e in Flat(items, rows) <==> exists x :: x in items && e in rows(x)
  {
    if items != [] {
      var n := |items| - 1;
      FlatMembers(items[..n], rows, e);
      assert items == items[..n] + [items[n]];
      assert forall x :: x in items <==> x in items[..n] || x == items[n];
    }
  }

  ghost predicate SameItems(a: seq<Item>, b: seq<Item>) {
    forall x :: x in a <==> x in b
  }

  lemma SameItemsSameMessages(a: seq<Item>, b: seq<Item>, rows: Item -> seq<Excluded>)
    requires SameItems(a, b)
    ensures SameMessages(Flat(a, rows), Flat(b, rows))
  {
    forall e ensures e in Flat(a, rows) <==> e in Flat(b, rows) {
      FlatMembers(a, rows, e);
      FlatMembers(b, rows, e);
    }
  }

  lemma LogOrderHasTheSameItems(log: seq<Entry>, out: seq<Item>)
    requires AllInLog(log, out)
    ensures SameItems(out, InLogOrder(log, out, 0, |log|))
  {
    var inOrder := InLogOrder(log, out, 0, |log|);
    forall x ensures x in out <==> x in inOrder {
      InLogOrderCounts(log, out, 0, |log|, x);
      CountIsMultiplicity(inOrder, x);
    }
  }

  /**
   In every run of a pool, crashes and the redelivery after them included: if a flight's newest
   messages agree on the status, its row ends with the status and time that the same messages,
   each once and in log order, would have given it.
   */
  lemma PoolKeepsStatus(
    log: seq<Entry>, cfg: Config, file: Option<LaddStore.ListFile>, steps: seq<Step>, s: State,
    r: Option<Row>, rows: Item -> seq<Excluded>)
    requires After(log, cfg, Init(cfg, file), steps) == Some(s)
    ensures var out := Output(s.hist);
      var inOrder := Flat(InLogOrder(log, out, 0, |log|), rows);
      LatestAgree(inOrder) ==> SameStatus(RowAfter(r, Flat(out, rows)), RowAfter(r, inOrder))
  {
    EveryRunKeepsTheInvariant(log, cfg, file, steps, s);
    forall x | x in Output(s.hist) ensures InLog(log, x) {
      OutputIsCountedByTimes(log, s.hist, x);
    }
    OrderDoesNotShow(log, Output(s.hist), r, rows);
  }

  lemma OrderDoesNotShow(log: seq<Entry>, out: seq<Item>, r: Option<Row>, rows: Item -> seq<Excluded>)
    requires AllInLog(log, out)
    ensures var inOrder := Flat(InLogOrder(log, out, 0, |log|), rows);
      LatestAgree(inOrder) ==> SameStatus(RowAfter(r, Flat(out, rows)), RowAfter(r, inOrder))
  {
    var items := InLogOrder(log, out, 0, |log|);
    LogOrderHasTheSameItems(log, out);
    SameItemsSameMessages(out, items, rows);
    if LatestAgree(Flat(items, rows)) {
      ReorderedRepeatsKeepStatus(r, Flat(out, rows), Flat(items, rows));
    }
  }

  /** What of `first` came through a second stage that reads `first` as its topic. */
  function Through(first: seq<Item>, second: seq<Item>): seq<Item>
    requires forall i :: 0 <= i < |second| ==> second[i].o < |first|
  {
    seq(|second|, i requires 0 <= i < |second| => first[second[i].o])
  }

  ghost predicate AllInLog(log: seq<Entry>, items: seq<Item>) {
    forall x :: x in items ==> InLog(log, x)
  }

  /** What came through both pools consists of flights of the first one's input. */
  lemma ThroughIsInLog(
    log: seq<Entry>, cfg: Config, steps: seq<Step>, s: State,
    log': seq<Entry>, cfg': Config, file: Option<LaddStore.ListFile>, steps': seq<Step>, s': State)
    requires After(log, cfg, Init(cfg, None), steps) == Some(s)
    requires After(log', cfg', Init(cfg', file), steps') == Some(s')
    requires |log'| <= |Output(s.hist)|
    ensures forall i :: 0 <= i < |Output(s'.hist)| ==> Output(s'.hist)[i].o < |Output(s.hist)|
    ensures AllInLog(log, Through(Output(s.hist), Output(s'.hist)))
  {
    EveryRunKeepsTheInvariant(log, cfg, None, steps, s);
    EveryRunKeepsTheInvariant(log', cfg', file, steps', s');
    var first, second := Output(s.hist), Output(s'.hist);
    forall i | 0 <= i < |second| ensures second[i].o < |first| {
      assert second[i] in second;
      OutputIsCountedByTimes(log', s'.hist, second[i]);
    }
    forall x | x in Through(first, second) ensures InLog(log, x) {
      var i :| 0 <= i < |second| && x == first[second[i].o];
      assert x in first;
      OutputIsCountedByTimes(log, s.hist, x);
    }
  }

  /**
   The two pools in a row: the filter reads what the normalizer has written so far. Whatever runs the
   two have had, the row ends as the flights that came through both would have left it in the order of
   the normalizer's own input.
   */
  lemma BothPoolsKeepStatus(
    log: seq<Entry>, cfg: Config, steps: seq<Step>, s: State,
    log': seq<Entry>, cfg': Config, file: Option<LaddStore.ListFile>, steps': seq<Step>, s': State,
    r: Option<Row>, rows: Item -> seq<Excluded>)
    requires After(log, cfg, Init(cfg, None), steps) == Some(s)
    requires After(log', cfg', Init(cfg', file), steps') == Some(s')
    requires |log'| <= |Output(s.hist)|
    ensures forall i :: 0 <= i < |Output(s'.hist)| ==> Output(s'.hist)[i].o < |Output(s.hist)|
    ensures var out := Through(Output(s.hist), Output(s'.hist));
      var inOrder := Flat(InLogOrder(log, out, 0, |log|), rows);
      LatestAgree(inOrder) ==> SameStatus(RowAfter(r, Flat(out, rows)), RowAfter(r, inOrder))
  {
    ThroughIsInLog(log, cfg, steps, s, log', cfg', file, steps', s');
    OrderDoesNotShow(log, Through(Output(s.hist), Output(s'.hist)), r, rows);
  }
}
