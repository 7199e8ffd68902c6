/**
 The tie rule is not just sufficient: without it some run of the database-writer goes wrong.
 */
module WriterExactness {
  import opened Sql
  import opened FlightRow
  import opened Tables
  import opened WriterRun

  const EMPTY := Db(map[], map[], [])

  /** A run of a consumer group whose offset is known, from an empty database. */
  ghost predicate Reaches(log: seq<Entry>, batchSize: nat, es: seq<Event>, s: State) {
    After(log, batchSize, Init(EMPTY, Some(0), 0), es) == Some(s)
  }

  ghost predicate EveryRunSinglePass(log: seq<Entry>, batchSize: nat) {
    forall es, s :: Reaches(log, batchSize, es, s) ==> OffsetsInOrder(log, s) && IsSinglePass(log, EMPTY, s)
  }

  lemma AfterOne(log: seq<Entry>, batchSize: nat, s: State, es: seq<Event>, e: Event, t: State)
    requires After(log, batchSize, s, es) == Some(t) && OffsetsInOrder(log, t) && Enabled(log, batchSize, t, e)
    ensures After(log, batchSize, s, es + [e]) == Some(Next(log, batchSize, t, e))
  {
    assert (es + [e])[..|es|] == es;
  }

  /** A batch of any size that fits, written at once, its commit lost. */
  lemma Deliver(log: seq<Entry>, batchSize: nat, s: State, n: nat) returns (es: seq<Event>, t: State)
    requires OffsetsInOrder(log, s) && s.phase == Idle && 1 <= n <= batchSize && s.fetch + n <= |log|
    ensures Delivers(log, batchSize, s, Passed(log[s.fetch..s.fetch + n]), s.fetch + n, es, t)
  {
    var f, batch := s.fetch, Passed(log[s.fetch..s.fetch + n]);
    var s1 := s.(phase := Writing(f, f + n), fetch := f + n);
    var s2 := s1.(db := RecordEach(s.db, batch), next := Max(s.next, f + n), phase := Written(f + n));
    t := s2.(phase := Idle);
    DeliverStep(log, batchSize, s, [], Read(n), s, s1);
    DeliverStep(log, batchSize, s, [] + [Read(n)], Attempt(batch, true, true), s1, s2);
    DeliverStep(log, batchSize, s, [] + [Read(n)] + [Attempt(batch, true, true)], Commit(false), s2, t);
    es := [] + [Read(n)] + [Attempt(batch, true, true)] + [Commit(false)];
  }

  lemma DeliverStep(log: seq<Entry>, batchSize: nat, s: State, es: seq<Event>, e: Event, t: State, u: State)
    requires After(log, batchSize, s, es) == Some(t) && OffsetsInOrder(log, t)
    requires Enabled(log, batchSize, t, e) && Next(log, batchSize, t, e) == u
    ensures After(log, batchSize, s, es + [e]) == Some(u) && OffsetsInOrder(log, u)
  {
    AfterOne(log, batchSize, s, es, e, t);
    StepKeepsOffsets(log, batchSize, t, e);
  }

  /** `t` is `s` after these messages, which end before offset `m`, none of them committed. */
  ghost predicate CaughtUp(s: State, batch: seq<Arrival>, m: nat, t: State) {
    t == s.(db := RecordEach(s.db, batch), fetch := m, next := Max(s.next, m))
  }

  lemma TwoDeliveriesInOne(s: State, m: nat, t: State, u: State, a: seq<Arrival>, b: seq<Arrival>)
    requires m > 0 && CaughtUp(s, a, m - 1, t) && CaughtUp(t, b, m, u)
    ensures CaughtUp(s, a + b, m, u)
  {
    RecordEachConcat(s.db, a, b);
  }

  /** These events take `s` to `t` by delivering these messages, up to offset `m`. */
  ghost predicate Delivers(
    log: seq<Entry>, batchSize: nat, s: State, batch: seq<Arrival>, m: nat, es: seq<Event>, t: State)
  {
    After(log, batchSize, s, es) == Some(t) && OffsetsInOrder(log, t) && CaughtUp(s, batch, m, t)
  }

  lemma DeliverNothing(log: seq<Entry>, batchSize: nat, s: State, batch: seq<Arrival>)
    requires OffsetsInOrder(log, s) && s.phase == Idle && batch == Passed(log[s.fetch..s.fetch])
    ensures Delivers(log, batchSize, s, batch, s.fetch, [], s)
  {
    assert log[s.fetch..s.fetch] == [];
  }

  lemma DeliverInTurn(
    log: seq<Entry>, batchSize: nat, s: State, a: seq<Arrival>, es: seq<Event>, t: State,
    b: seq<Arrival>, m: nat, es': seq<Event>, u: State)
    requires m > 0 && Delivers(log, batchSize, s, a, m - 1, es, t) && Delivers(log, batchSize, t, b, m, es', u)
    ensures Delivers(log, batchSize, s, a + b, m, es + es', u)
  {
    AfterConcat(log, batchSize, s, es, es');
    TwoDeliveriesInOne(s, m, t, u, a, b);
  }

  /** Deliver everything up to offset `m`, one message at a time. */
  lemma {:induction false} DeliverUpTo(log: seq<Entry>, batchSize: nat, s: State, m: nat)
    returns (es: seq<Event>, t: State)
    requires OffsetsInOrder(log, s) && s.phase == Idle && s.fetch <= m <= |log| && batchSize >= 1
    ensures Delivers(log, batchSize, s, Passed(log[s.fetch..m]), m, es, t)
    decreases m
  {
    if m == s.fetch {
      DeliverNothing(log, batchSize, s, Passed(log[m..m]));
      es, t := [], s;
    } else {
      var es0, t0 := DeliverUpTo(log, batchSize, s, m - 1);
      var before, more, all := Passed(log[s.fetch..m - 1]), Passed(log[m - 1..m]), Passed(log[s.fetch..m]);
      assert all == before + more by {
        PassedSplit(log, s.fetch, m - 1, m);
      }
      es, t := DeliverOneMore(log, batchSize, s, before, m, es0, t0, more, all);
    }
  }

  lemma DeliverOneMore(
    log: seq<Entry>, batchSize: nat, s: State, batch: seq<Arrival>, m: nat, before: seq<Event>, mid: State,
    more: seq<Arrival>, all: seq<Arrival>)
    returns (es: seq<Event>, t: State)
    requires s.phase == Idle && 0 < m <= |log| && batchSize >= 1 && more == Passed(log[m - 1..m])
    requires Delivers(log, batchSize, s, batch, m - 1, before, mid) && all == batch + more
    ensures Delivers(log, batchSize, s, all, m, es, t)
  {
    assert mid.phase == Idle && mid.fetch == m - 1;
    var es1, t1 := Deliver(log, batchSize, mid, 1);
    DeliverInTurn(log, batchSize, s, batch, before, mid, more, m, es1, t1);
    es, t := before + es1, t1;
  }

  lemma RowsGrowByAtMostOne(log: seq<Entry>, g: string)
    requires log != []
    ensures RowsOf(Passed(log[..|log| - 1]), g) <= RowsOf(Passed(log), g)
    ensures |RowsOf(Passed(log), g)| <= |RowsOf(Passed(log[..|log| - 1]), g)| + 1
  {
    var n := |log| - 1;
    assert log == log[..n] + [log[n]];
    PassedConcat(log[..n], [log[n]]);
    RowsOfConcat(Passed(log[..n]), Passed([log[n]]), g);
    AtMostOneRow(log[n], g);
  }

  lemma CutOfLonger(a: seq<Excluded>, b: seq<Excluded>, i: nat)
    requires a <= b && |b| <= |a| + 1 && i < |b|
    ensures i < |a| ==> a[..i + 1] == b[..i + 1]
    ensures i >= |a| ==> b == b[..i + 1]
  {
  }

  /** The offset of a flight's `i`-th message. */
  lemma {:induction false} OffsetOfRow(log: seq<Entry>, g: string, i: nat) returns (o: nat)
    requires i < |RowsOf(Passed(log), g)|
    ensures o < |log|
    ensures RowsOf(Passed(log[..o + 1]), g) == RowsOf(Passed(log), g)[..i + 1]
  {
    SomeRowMeansSomeEntry(log, g);
    var n := |log| - 1;
    RowsGrowByAtMostOne(log, g);
    CutOfLonger(RowsOf(Passed(log[..n]), g), RowsOf(Passed(log), g), i);
    if i < |RowsOf(Passed(log[..n]), g)| {
      o := OffsetOfRow(log[..n], g, i);
      assert log[..n][..o + 1] == log[..o + 1];
    } else {
      o := n;
      assert log[..n + 1] == log;
    }
  }

  lemma SomeRowMeansSomeEntry(log: seq<Entry>, g: string)
    requires RowsOf(Passed(log), g) != []
    ensures log != []
  {
  }

  lemma AtMostOneRow(e: Entry, g: string)
    ensures |RowsOf(Passed([e]), g)| <= 1
  {
    assert [e][..0] == [];
    var p := Passed([e]);
    assert p == [] || p[..0] == [];
  }

  /**
   A tie at the top whose statuses differ breaks the single-pass property: deliver both messages,
   lose the commits, crash, and redeliver only up to the first of the two.
   */
  lemma DisagreeingTieBreaksARun(log: seq<Entry>, batchSize: nat, g: string, i: nat, j: nat)
    requires batchSize >= 1
    requires i < j < |RowsOf(Passed(log), g)|
    requires var rows := RowsOf(Passed(log), g);
      rows[i].time == rows[j].time && IsLatest(rows[..j + 1], j) && rows[i].status != rows[j].status
    ensures !EveryRunSinglePass(log, batchSize)
  {
    var a, b := PrefixesThatDiffer(log, g, i, j);
    var es, s := DeliverTwice(log, batchSize, a, b);
  }

  /** Two prefixes of the log such that replaying the shorter after the longer moves the tables. */
  lemma PrefixesThatDiffer(log: seq<Entry>, g: string, i: nat, j: nat) returns (a: nat, b: nat)
    requires i < j < |RowsOf(Passed(log), g)|
    requires var rows := RowsOf(Passed(log), g);
      rows[i].time == rows[j].time && IsLatest(rows[..j + 1], j) && rows[i].status != rows[j].status
    ensures b <= a <= |log|
    ensures var once := RecordEach(EMPTY, Passed(log[..a])); !SameTables(RecordEach(once, Passed(log[..b])), once)
  {
    var oi := OffsetOfRow(log, g, i);
    var oj := OffsetOfRow(log, g, j);
    OffsetsFollowRows(log, g, oi, oj);
    var rows := RowsOf(Passed(log), g);
    TieRowMoves(rows, i, j);
    a, b := oj + 1, oi + 1;
    OneRowTellsTheTablesApart(Passed(log[..a]), Passed(log[..b]), g, rows[..j + 1], rows[..i + 1]);
  }

  lemma OneRowTellsTheTablesApart(a: seq<Arrival>, b: seq<Arrival>, g: string, ra: seq<Excluded>, rb: seq<Excluded>)
    requires RowsOf(a, g) == ra && RowsOf(b, g) == rb
    requires RowAfter(RowAfter(None, ra), rb) != RowAfter(None, ra)
    ensures !SameTables(RecordEach(RecordEach(EMPTY, a), b), RecordEach(EMPTY, a))
  {
    FlightsAreIndependent(EMPTY, a, g);
    FlightsAreIndependent(RecordEach(EMPTY, a), b, g);
  }

  /** Everything up to `a`, no commit, a crash, and then the same again up to `b`. */
  lemma DeliverTwice(log: seq<Entry>, batchSize: nat, a: nat, b: nat) returns (es: seq<Event>, s: State)
    requires b <= a <= |log| && batchSize >= 1
    ensures Reaches(log, batchSize, es, s) && OffsetsInOrder(log, s)
    ensures s.db == RecordEach(RecordEach(EMPTY, Passed(log[..a])), Passed(log[..b]))
    ensures First(log, s) == Passed(log[..a])
  {
    var s0 := Init(EMPTY, Some(0), 0);
    var es1, s1 := DeliverUpTo(log, batchSize, s0, a);
    var s2 := s1.(fetch := 0);
    DeliverStep(log, batchSize, s0, es1, Restart(0), s1, s2);
    var es3, s3 := DeliverUpTo(log, batchSize, s2, b);
    AfterConcat(log, batchSize, s0, es1 + [Restart(0)], es3);
    es, s := es1 + [Restart(0)] + es3, s3;
    WhatWasDelivered(log, a, b, s1, s2, s3);
  }

  lemma WhatWasDelivered(log: seq<Entry>, a: nat, b: nat, s1: State, s2: State, s3: State)
    requires b <= a <= |log|
    requires CaughtUp(Init(EMPTY, Some(0), 0), Passed(log[0..a]), a, s1) && s2 == s1.(fetch := 0)
    requires CaughtUp(s2, Passed(log[0..b]), b, s3)
    ensures s3.base <= s3.next <= |log| && First(log, s3) == Passed(log[..a])
    ensures s3.db == RecordEach(RecordEach(EMPTY, Passed(log[..a])), Passed(log[..b]))
  {
    assert log[0..a] == log[..a] && log[0..b] == log[..b];
    assert [] + Passed(log[..a]) == Passed(log[..a]);
  }

  /** Replaying a prefix that ends on one side of a disagreeing tie moves the status to that side. */
  lemma TieRowMoves(rows: seq<Excluded>, i: nat, j: nat)
    requires i < j < |rows| && IsLatest(rows[..j + 1], j)
    requires rows[i].time == rows[j].time && rows[i].status != rows[j].status
    ensures var once := RowAfter(None, rows[..j + 1]);
      RowAfter(once, rows[..i + 1]) != once
  {
    assert forall k :: 0 <= k <= i ==> rows[..i + 1][k] == rows[k] && rows[..j + 1][k] == rows[k];
    TieEndsOnLast(None, rows[..j + 1], j);
    TieEndsOnLast(RowAfter(None, rows[..j + 1]), rows[..i + 1], i);
  }

  /** A last message at least as recent as everything before it sets the status. */
  lemma TieEndsOnLast(r: Option<Row>, es: seq<Excluded>, n: nat)
    requires |es| == n + 1 && IsLatest(es, n) && Beats(es[n], r)
    ensures RowAfter(r, es).value.status == es[n].status && RowAfter(r, es).value.statusTime == Some(es[n].time)
  {
    var i := LastLatest(r, es);
    assert es[i].time == es[n].time;
  }

  lemma OffsetsFollowRows(log: seq<Entry>, g: string, oi: nat, oj: nat)
    requires oi < |log| && oj < |log|
    requires |RowsOf(Passed(log[..oi + 1]), g)| < |RowsOf(Passed(log[..oj + 1]), g)|
    ensures oi < oj
  {
    if oj <= oi {
      assert log[..oi + 1] == log[..oj + 1] + log[oj + 1..oi + 1];
      PassedConcat(log[..oj + 1], log[oj + 1..oi + 1]);
      RowsOfConcat(Passed(log[..oj + 1]), Passed(log[oj + 1..oi + 1]), g);
    }
  }

  lemma AgreeingTiesMakeEveryRunSinglePass(log: seq<Entry>, batchSize: nat)
    requires AllParseable(log) && TiesAgree(Passed(log))
    ensures EveryRunSinglePass(log, batchSize)
  {
    forall es, s | Reaches(log, batchSize, es, s)
      ensures OffsetsInOrder(log, s) && IsSinglePass(log, EMPTY, s)
    {
      EveryRunIsASinglePass(log, batchSize, EMPTY, Some(0), 0, es, s);
      assert log == log[0..s.next] + log[s.next..];
      PassedConcat(log[0..s.next], log[s.next..]);
      assert First(log, s) == Passed(log[0..s.next]);
      TiesAgreeOnPrefix(First(log, s), Passed(log));
    }
  }

  /**
   For a group with a committed offset and parseable timestamps: all runs, whatever crashes,
   end in the tables of a single in-order pass exactly when no flight has two messages with the same
   timestamp, newest at that point, and different statuses.
   */
  lemma SinglePassExactlyWhenTiesAgree(log: seq<Entry>, batchSize: nat)
    requires AllParseable(log) && batchSize >= 1
    ensures EveryRunSinglePass(log, batchSize) <==> TiesAgree(Passed(log))
  {
    if TiesAgree(Passed(log)) {
      AgreeingTiesMakeEveryRunSinglePass(log, batchSize);
    } else {
      var g :| !TieSafe(RowsOf(Passed(log), g));
      var rows := RowsOf(Passed(log), g);
      var i, j :| 0 <= i < j < |rows| && rows[i].time == rows[j].time && IsLatest(rows[..j + 1], j)
                  && rows[i].status != rows[j].status;
      DisagreeingTieBreaksARun(log, batchSize, g, i, j);
    }
  }
}
