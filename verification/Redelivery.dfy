/**
 When a row survives redelivery of a whole batch, and when it survives reordering: both exactly.
 */
module Redelivery {
  import opened Sql
  import opened FlightRow

  /** `b[i]` carries the timestamp the row ends up with. */
  ghost predicate SetsStatusTime(r: Option<Row>, b: seq<Excluded>, i: int) {
    IsLatest(b, i) && Beats(b[i], r)
  }

  /** Of the messages carrying the final timestamp, either all or none are DROPPED. */
  ghost predicate UniformlyDropped(r: Option<Row>, b: seq<Excluded>) {
    forall i, j :: SetsStatusTime(r, b, i) && SetsStatusTime(r, b, j) ==>
      (b[i].status == DROPPED <==> b[j].status == DROPPED)
  }

  /** The row holds everything the batch has to say about identity and is at least as recent. */
  ghost predicate Covers(row: Row, b: seq<Excluded>) {
    && row.statusTime.Some?
    && forall k :: 0 <= k < |b| ==> b[k].time <= row.statusTime.value && AddsNothing(b[k].ident, row.ident)
  }

  lemma FirstPassCovers(r: Option<Row>, b: seq<Excluded>)
    requires b != []
    ensures Covers(RowAfter(r, b).value, b)
  {
    KnownIdentityIsKept(r, b);
    var _ := LastLatest(r, b);
  }

  /** During a second pass only the status and the counters can move, and the counters only up. */
  lemma {:induction false} SecondPass(row: Row, b: seq<Excluded>)
    requires Covers(row, b)
    ensures var again := RowAfter(Some(row), b).value;
      && again.ident == row.ident && again.statusTime == row.statusTime
      && again.drops >= row.drops && again.reactivations >= row.reactivations
  {
    if b != [] {
      assert forall k :: 0 <= k < |b| - 1 ==> b[..|b| - 1][k] == b[k];
      SecondPass(row, b[..|b| - 1]);
    }
  }

  /** A second pass that finds only its own kind of status at the top counts nothing. */
  lemma {:induction false} SecondPassOfOneKind(row: Row, b: seq<Excluded>)
    requires Covers(row, b)
    requires forall k :: 0 <= k < |b| && b[k].time == row.statusTime.value ==>
      (b[k].status == DROPPED <==> row.status == DROPPED)
    ensures var again := RowAfter(Some(row), b).value;
      && again.drops == row.drops && again.reactivations == row.reactivations
      && (again.status == DROPPED <==> row.status == DROPPED)
  {
    if b != [] {
      var before := b[..|b| - 1];
      assert forall k :: 0 <= k < |before| ==> before[k] == b[k];
      SecondPass(row, before);
      SecondPassOfOneKind(row, before);
    }
  }

  /** If a second pass counted no drop, a row that was not DROPPED somewhere on the way is not DROPPED later. */
  lemma {:induction false} NoDropCountedMeansNoneEntered(row: Row, b: seq<Excluded>, n: nat)
    requires Covers(row, b) && n <= |b|
    requires RowAfter(Some(row), b).value.drops == row.drops
    requires RowAfter(Some(row), b[..n]).value.status != DROPPED
    ensures RowAfter(Some(row), b).value.status != DROPPED
    decreases |b|
  {
    if n == |b| {
      assert b[..n] == b;
    } else {
      var before := b[..|b| - 1];
      assert forall k :: 0 <= k < |before| ==> before[k] == b[k];
      SecondPass(row, before);
      assert before[..n] == b[..n];
      NoDropCountedMeansNoneEntered(row, before, n);
    }
  }

  /** During a second pass a message carrying the final timestamp sets the status. */
  lemma TopMessageSetsStatus(row: Row, b: seq<Excluded>, i: nat)
    requires Covers(row, b) && i < |b| && b[i].time == row.statusTime.value
    ensures RowAfter(Some(row), b[..i + 1]).value.status == b[i].status
  {
    var before := b[..i];
    assert forall k :: 0 <= k < i ==> before[k] == b[k];
    SecondPass(row, before);
    assert b[..i + 1] == before + [b[i]];
    RowAfterOne(Some(row), before, b[i]);
  }

  /**
   The database-writer's README calls a replayed batch safe because the upserts are idempotent.
   They are, exactly when the messages of the batch that carry the row's final timestamp are
   all DROPPED or none of them is.
   */
  lemma BatchReplayIsIdempotentIff(r: Option<Row>, b: seq<Excluded>)
    ensures RowAfter(RowAfter(r, b), b) == RowAfter(r, b) <==> UniformlyDropped(r, b)
  {
    if b != [] {
      FirstPassCovers(r, b);
      if UniformlyDropped(r, b) {
        UniformReplayIsNoOp(r, b);
      } else {
        var i, j :| SetsStatusTime(r, b, i) && SetsStatusTime(r, b, j)
          && b[i].status == DROPPED && b[j].status != DROPPED;
        MixedReplayCountsADrop(r, b, i, j);
      }
    }
  }

  lemma UniformReplayIsNoOp(r: Option<Row>, b: seq<Excluded>)
    requires b != [] && UniformlyDropped(r, b)
    ensures RowAfter(RowAfter(r, b), b) == RowAfter(r, b)
  {
    FirstPassCovers(r, b);
    var row := RowAfter(r, b).value;
    var w := LastLatest(r, b);
    var v := LastLatest(Some(row), b);
    assert v == w;
    SecondPass(row, b);
    forall k | 0 <= k < |b| && b[k].time == row.statusTime.value
      ensures b[k].status == DROPPED <==> row.status == DROPPED
    {
      assert Beats(b[w], r) ==> SetsStatusTime(r, b, k) && SetsStatusTime(r, b, w);
    }
    SecondPassOfOneKind(row, b);
  }

  lemma MixedReplayCountsADrop(r: Option<Row>, b: seq<Excluded>, i: nat, j: nat)
    requires SetsStatusTime(r, b, i) && b[i].status == DROPPED
    requires SetsStatusTime(r, b, j) && b[j].status != DROPPED
    ensures RowAfter(RowAfter(r, b), b) != RowAfter(r, b)
  {
    FirstPassCovers(r, b);
    var _ := LastLatest(r, b);
    MixedSecondPassCountsADrop(RowAfter(r, b).value, b, i, j);
  }

  lemma MixedSecondPassCountsADrop(row: Row, b: seq<Excluded>, i: nat, j: nat)
    requires Covers(row, b) && i < |b| && j < |b|
    requires b[i].time == b[j].time == row.statusTime.value
    requires b[i].status == DROPPED && b[j].status != DROPPED
    ensures RowAfter(Some(row), b) != Some(row)
  {
    if RowAfter(Some(row), b) == Some(row) {
      if row.status == DROPPED {
        TopMessageSetsStatus(row, b, j);
        NoDropCountedMeansNoneEntered(row, b, j + 1);
      } else {
        var upTo := b[..i + 1];
        DropsOnlyGrow(Some(row), b, i + 1);
        TopMessageSetsStatus(row, b, i);
        assert Covers(row, upTo) && upTo[..0] == [];
        NoDropCountedMeansNoneEntered(row, upTo, 0);
      }
    }
  }

  lemma {:induction false} DropsOnlyGrow(r: Option<Row>, b: seq<Excluded>, n: nat)
    requires n <= |b|
    requires r.Some?
    ensures r.value.drops <= RowAfter(r, b[..n]).value.drops <= RowAfter(r, b).value.drops
    decreases |b|
  {
    if n == |b| {
      assert b[..n] == b;
      if n > 0 {
        DropsOnlyGrow(r, b[..n - 1], n - 1);
      }
    } else {
      assert b[..|b| - 1][..n] == b[..n];
      DropsOnlyGrow(r, b[..|b| - 1], n);
    }
  }

  /** Two same-second messages are enough: replaying the pair counts a drop that never happened. */
  lemma ReplayCanInventADrop()
    ensures var b := [Excluded(NOBODY, ACTIVE, 7), Excluded(NOBODY, DROPPED, 7)];
      && RowAfter(None, b).value.drops == 1
      && RowAfter(RowAfter(None, b), b).value.drops == 2
      && RowAfter(RowAfter(None, b), b).value.reactivations == 1
  {
    var a, d := Excluded(NOBODY, ACTIVE, 7), Excluded(NOBODY, DROPPED, 7);
    RowAfterOne(None, [], a);
    RowAfterOne(None, [a], d);
    assert [a] + [d] == [a, d] && [] + [a] == [a];
    var r := RowAfter(None, [a, d]);
    RowAfterOne(r, [], a);
    RowAfterOne(r, [a], d);
  }

  // ---------- reordering ----------

  ghost predicate SameStatus(a: Option<Row>, b: Option<Row>) {
    && (a.Some? <==> b.Some?)
    && (a.Some? ==> a.value.status == b.value.status && a.value.statusTime == b.value.statusTime)
  }

  /** The messages with the greatest timestamp agree on the status. */
  ghost predicate LatestAgree(es: seq<Excluded>) {
    forall i, j :: IsLatest(es, i) && IsLatest(es, j) ==> es[i].status == es[j].status
  }

  /**
   Reordering leaves the stored status and its time alone exactly when the messages with the
   greatest timestamp agree; otherwise some order ends on another status.
   */
  lemma OrderIsIrrelevantIffLatestAgree(es: seq<Excluded>)
    ensures (forall other :: multiset(other) == multiset(es) ==> SameStatus(RowAfter(None, other), RowAfter(None, es)))
       <==> LatestAgree(es)
  {
    if LatestAgree(es) {
      forall other | multiset(other) == multiset(es)
        ensures SameStatus(RowAfter(None, other), RowAfter(None, es))
      {
        ReorderKeepsStatus(es, other);
      }
    } else {
      var i, j :| IsLatest(es, i) && IsLatest(es, j) && es[i].status != es[j].status;
      var w := LastLatest(None, es);
      var moved := if es[i].status != es[w].status then i else j;
      var other := MoveToEnd(es, moved);
      StatusFollowsLastLatest(other);
      assert IsLastLatest(other, |es| - 1);
    }
  }

  lemma MoveToEnd(es: seq<Excluded>, i: nat) returns (other: seq<Excluded>)
    requires i < |es|
    ensures |other| == |es| && other[|es| - 1] == es[i]
    ensures multiset(other) == multiset(es)
    ensures forall k :: 0 <= k < |other| ==> other[k] in es
  {
    assert es == es[..i] + [es[i]] + es[i + 1..];
    other := es[..i] + es[i + 1..] + [es[i]];
  }

  lemma SameMembers<T>(a: seq<T>, b: seq<T>)
    requires multiset(a) == multiset(b)
    ensures |a| == |b| && forall x :: x in a <==> x in b
  {
    assert |a| == |multiset(a)| && |b| == |multiset(b)|;
    forall x ensures x in a <==> x in b {
      assert x in a <==> x in multiset(a);
      assert x in b <==> x in multiset(b);
    }
  }

  /** `a` delivers the messages of `b` and no others, in any order and any number of times each. */
  ghost predicate SameMessages(a: seq<Excluded>, b: seq<Excluded>) {
    forall e :: e in a <==> e in b
  }

  lemma LatestIsShared(a: seq<Excluded>, b: seq<Excluded>, v: int, w: int)
    requires SameMessages(a, b) && IsLatest(a, v) && IsLatest(b, w) && LatestAgree(b)
    ensures a[v].time == b[w].time && a[v].status == b[w].status
  {
    assert a[v] in b && b[w] in a;
    var k :| 0 <= k < |b| && b[k] == a[v];
    var m :| 0 <= m < |a| && a[m] == b[w];
    assert IsLatest(b, k);
  }

  /** Reordering and repetition together leave status and time alone, on top of any row, if the latest agree. */
  lemma ReorderedRepeatsKeepStatus(r: Option<Row>, a: seq<Excluded>, b: seq<Excluded>)
    requires SameMessages(a, b) && LatestAgree(b)
    ensures SameStatus(RowAfter(r, a), RowAfter(r, b))
  {
    assert b != [] ==> b[0] in b;
    if a != [] {
      assert a[0] in b;
      var v := LastLatest(r, a);
      var w := LastLatest(r, b);
      LatestIsShared(a, b, v, w);
    }
  }

  lemma ReorderKeepsStatus(es: seq<Excluded>, other: seq<Excluded>)
    requires multiset(other) == multiset(es) && LatestAgree(es)
    ensures SameStatus(RowAfter(None, other), RowAfter(None, es))
  {
    SameMembers(es, other);
    if es != [] {
      var w := LastLatest(None, es);
      var v := LastLatest(None, other);
      assert other[v] in es && es[w] in other;
      var k :| 0 <= k < |es| && es[k] == other[v];
      assert es[w].time == es[k].time;
      assert IsLatest(es, k);
    }
  }
}
