/**
 The offline lifecycle report, which sorts each flight's messages by timestamp before looking
 for drops, as a reference for the counters the database keeps while messages arrive in any order.
 */
module Lifecycle {
  import opened Sql
  import opened FlightRow
  import opened Text
  import opened Sequences

  // ---------- the stable timestamp sort ----------

  function TimeOf(e: Excluded): int {
    e.time
  }

  /** Put `x` after everything that is not newer. */
  function Insert(s: seq<Excluded>, x: Excluded): seq<Excluded> {
    InsertBy(s, x, TimeOf)
  }

  /** Arrival order sorted by timestamp, equal timestamps keeping their order. */
  function StableSort(es: seq<Excluded>): seq<Excluded> {
    SortBy(es, TimeOf)
  }

  ghost predicate Ascending(es: seq<Excluded>) {
    forall i, j :: 0 <= i < j < |es| ==> es[i].time <= es[j].time
  }

  lemma {:induction false} InsertIsAscending(s: seq<Excluded>, x: Excluded)
    requires Ascending(s)
    ensures Ascending(Insert(s, x))
  {
    if s != [] && s[|s| - 1].time > x.time {
      var front, last := s[..|s| - 1], s[|s| - 1];
      InsertIsAscending(front, x);
      var r := Insert(front, x);
      forall i | 0 <= i < |r| ensures r[i].time <= last.time {
        assert r[i] in multiset(r);
      }
    }
  }

  lemma {:induction false} StableSortIsAscending(es: seq<Excluded>)
    ensures Ascending(StableSort(es))
  {
    if es != [] {
      StableSortIsAscending(es[..|es| - 1]);
      InsertIsAscending(StableSort(es[..|es| - 1]), es[|es| - 1]);
    }
  }

  lemma {:induction false} SortedIsItsOwnSort(es: seq<Excluded>)
    requires Ascending(es)
    ensures StableSort(es) == es
  {
    if es != [] {
      SortedIsItsOwnSort(es[..|es| - 1]);
    }
  }

  // ---------- drop_count against the sorted order ----------

  lemma DropsSnoc(s: seq<Excluded>, x: Excluded)
    ensures Drops(s + [x]) == Drops(s) + if s != [] && s[|s| - 1].status != DROPPED && x.status == DROPPED then 1 else 0
  {
    assert (s + [x])[..|s|] == s;
  }

  /** Inserting a message anywhere never loses a drop, and never moves the last message unless it becomes it. */
  lemma {:induction false} InsertKeepsDrops(s: seq<Excluded>, x: Excluded)
    ensures Drops(Insert(s, x)) >= Drops(s)
    ensures s == [] || s[|s| - 1].time <= x.time ==> Insert(s, x) == s + [x]
    ensures s != [] && s[|s| - 1].time > x.time ==> Insert(s, x)[|Insert(s, x)| - 1] == s[|s| - 1]
  {
    DropsSnoc(s, x);
    if s != [] && s[|s| - 1].time > x.time {
      var front, last := s[..|s| - 1], s[|s| - 1];
      assert s == front + [last];
      InsertKeepsDrops(front, x);
      DropsSnoc(front, last);
      DropsSnoc(front, x);
      DropsSnoc(Insert(front, x), last);
    }
  }

  lemma {:induction false} AscendingIsAllAccepted(es: seq<Excluded>)
    requires Ascending(es)
    ensures Accepted(es) == es
  {
    if es != [] {
      AscendingIsAllAccepted(es[..|es| - 1]);
    }
  }

  /** The row agrees with the newest end of the sorted messages and has counted no more drops. */
  ghost predicate WithinSorted(row: Row, sorted: seq<Excluded>) {
    && sorted != []
    && row.drops <= Drops(sorted)
    && row.status == sorted[|sorted| - 1].status
    && row.statusTime == Some(sorted[|sorted| - 1].time)
  }

  lemma StepWithinSorted(row: Row, sorted: seq<Excluded>, x: Excluded)
    requires WithinSorted(row, sorted)
    ensures WithinSorted(Upsert(Some(row), x), Insert(sorted, x))
  {
    InsertKeepsDrops(sorted, x);
    if x.time >= sorted[|sorted| - 1].time {
      DropsSnoc(sorted, x);
    } else {
      StaleMessageOnlyFillsIdentity(row, x);
    }
  }

  lemma {:induction false} DropsWithinSorted(es: seq<Excluded>)
    requires es != []
    ensures WithinSorted(RowAfter(None, es).value, StableSort(es))
  {
    var n := |es| - 1;
    if n == 0 {
      assert StableSort(es) == [es[0]];
    } else {
      DropsWithinSorted(es[..n]);
      StepWithinSorted(RowAfter(None, es[..n]).value, StableSort(es[..n]), es[n]);
    }
  }

  /**
   Out-of-order delivery can hide a drop but never invent one: `drop_count` is at most what a
   timestamp-sorted arrival of the same messages would count, and exactly that when arrival is sorted.
   */
  lemma DropCountNeverExceedsSorted(es: seq<Excluded>)
    requires es != []
    ensures RowAfter(None, es).value.drops <= RowAfter(None, StableSort(es)).value.drops
    ensures Ascending(es) ==> RowAfter(None, es) == RowAfter(None, StableSort(es))
  {
    var sorted := StableSort(es);
    assert |multiset(sorted)| == |multiset(es)| && |sorted| == |es|;
    DropsWithinSorted(es);
    StableSortIsAscending(es);
    AscendingIsAllAccepted(sorted);
    CountersCountAcceptedEdges(sorted);
    if Ascending(es) {
      SortedIsItsOwnSort(es);
    }
  }

  // ---------- reactivation_count against the sorted order ----------

  /** No such bound holds for reactivations: a late message in between makes the live count larger. */
  lemma ReactivationCountCanExceedSorted(other: Option<string>)
    requires other != DROPPED && other != ACTIVE
    ensures var es := [Excluded(NOBODY, DROPPED, 1), Excluded(NOBODY, ACTIVE, 3), Excluded(NOBODY, other, 2)];
      && RowAfter(None, es).value.reactivations == 1
      && RowAfter(None, StableSort(es)).value.reactivations == 0
  {
    var d, a, p := Excluded(NOBODY, DROPPED, 1), Excluded(NOBODY, ACTIVE, 3), Excluded(NOBODY, other, 2);
    LateMiddleIsSortedBack(d, a, p);
    ThreeUpserts(d, a, p);
    ThreeUpserts(d, p, a);
  }

  ghost predicate ReactivationsWithinSorted(es: seq<Excluded>) {
    RowAfter(None, es).Some? && RowAfter(None, StableSort(es)).Some? &&
    RowAfter(None, es).value.reactivations <= RowAfter(None, StableSort(es)).value.reactivations
  }

  ghost predicate Over(es: seq<Excluded>, statuses: iset<Option<string>>) {
    forall i :: 0 <= i < |es| ==> es[i].status in statuses
  }

  lemma ReturnsSnoc(s: seq<Excluded>, x: Excluded)
    ensures Returns(s + [x]) == Returns(s) + OneIf(s != [] && s[|s| - 1].status == DROPPED && x.status == ACTIVE)
  {
    assert (s + [x])[..|s|] == s;
  }

  const TWO_STATUSES: iset<Option<string>> := iset{DROPPED, ACTIVE}

  /** With only two statuses, an insertion between DROPPED and ACTIVE keeps or moves the return. */
  lemma {:induction false} InsertKeepsReturns(s: seq<Excluded>, x: Excluded)
    requires Over(s, TWO_STATUSES) && x.status in TWO_STATUSES
    ensures Returns(Insert(s, x)) >= Returns(s)
    ensures s == [] || s[|s| - 1].time <= x.time ==> Insert(s, x) == s + [x]
    ensures s != [] && s[|s| - 1].time > x.time ==> Insert(s, x)[|s|] == s[|s| - 1]
  {
    ReturnsSnoc(s, x);
    if s != [] && s[|s| - 1].time > x.time {
      var front, last := s[..|s| - 1], s[|s| - 1];
      assert s == front + [last];
      InsertKeepsReturns(front, x);
      ReturnsSnoc(front, last);
      ReturnsSnoc(front, x);
      ReturnsSnoc(Insert(front, x), last);
    }
  }

  /** The row agrees with the newest end of the sorted messages and has counted no more returns. */
  ghost predicate ReturnsWithin(row: Row, sorted: seq<Excluded>) {
    && sorted != [] && Over(sorted, TWO_STATUSES)
    && row.reactivations <= Returns(sorted)
    && row.status == sorted[|sorted| - 1].status
    && row.statusTime == Some(sorted[|sorted| - 1].time)
  }

  lemma InsertStaysOver(s: seq<Excluded>, x: Excluded, statuses: iset<Option<string>>)
    requires Over(s, statuses) && x.status in statuses
    ensures Over(Insert(s, x), statuses)
  {
    InsertByMembers(s, x, TimeOf);
    var r := Insert(s, x);
    forall i | 0 <= i < |r| ensures r[i].status in statuses {
      assert r[i] in r;
    }
  }

  lemma StepReturnsWithin(row: Row, sorted: seq<Excluded>, x: Excluded)
    requires ReturnsWithin(row, sorted) && x.status in TWO_STATUSES
    ensures ReturnsWithin(Upsert(Some(row), x), Insert(sorted, x))
  {
    InsertStaysOver(sorted, x, TWO_STATUSES);
    InsertKeepsReturns(sorted, x);
    if x.time >= sorted[|sorted| - 1].time {
      ReturnsSnoc(sorted, x);
    } else {
      StaleMessageOnlyFillsIdentity(row, x);
    }
  }

  lemma {:induction false} ReturnsWithinSorted(es: seq<Excluded>)
    requires es != [] && Over(es, TWO_STATUSES)
    ensures ReturnsWithin(RowAfter(None, es).value, StableSort(es))
  {
    var n := |es| - 1;
    if n == 0 {
      assert StableSort(es) == [es[0]];
    } else {
      ReturnsWithinSorted(es[..n]);
      StepReturnsWithin(RowAfter(None, es[..n]).value, StableSort(es[..n]), es[n]);
    }
  }

  /** Without both statuses there is no reactivation to count. */
  lemma {:induction false} NoReturnWithoutBoth(es: seq<Excluded>, statuses: iset<Option<string>>)
    requires es != [] && Over(es, statuses) && (DROPPED !in statuses || ACTIVE !in statuses)
    ensures RowAfter(None, es).value.reactivations == 0 && RowAfter(None, es).value.status in statuses
  {
    if |es| > 1 {
      NoReturnWithoutBoth(es[..|es| - 1], statuses);
    }
  }

  lemma SortedCountsReturns(es: seq<Excluded>)
    requires es != []
    ensures RowAfter(None, StableSort(es)).value.reactivations == Returns(StableSort(es))
  {
    StableSortIsAscending(es);
    AscendingIsAllAccepted(StableSort(es));
    CountersCountAcceptedEdges(StableSort(es));
  }

  lemma BoundHoldsOver(es: seq<Excluded>, statuses: iset<Option<string>>)
    requires es != [] && Over(es, statuses)
    requires DROPPED !in statuses || ACTIVE !in statuses || statuses <= TWO_STATUSES
    ensures ReactivationsWithinSorted(es)
  {
    if DROPPED !in statuses || ACTIVE !in statuses {
      NoReturnWithoutBoth(es, statuses);
    } else {
      ReturnsWithinSorted(es);
      SortedCountsReturns(es);
    }
  }

  /**
   When the bound does hold: over a set of statuses, every arrival order counts at most the
   reactivations of the sorted arrival exactly when the set lacks DROPPED or ACTIVE or has nothing else.
   */
  lemma ReactivationsAreBoundedIff(statuses: iset<Option<string>>)
    ensures (forall es :: es != [] && Over(es, statuses) ==> ReactivationsWithinSorted(es))
       <==> DROPPED !in statuses || ACTIVE !in statuses || statuses <= TWO_STATUSES
  {
    if DROPPED !in statuses || ACTIVE !in statuses || statuses <= TWO_STATUSES {
      forall es | es != [] && Over(es, statuses) ensures ReactivationsWithinSorted(es) {
        BoundHoldsOver(es, statuses);
      }
    } else {
      var other :| other in statuses && other !in TWO_STATUSES;
      var es := BoundFailsOver(statuses, other);
    }
  }

  lemma BoundFailsOver(statuses: iset<Option<string>>, other: Option<string>) returns (es: seq<Excluded>)
    requires DROPPED in statuses && ACTIVE in statuses && other in statuses && other !in TWO_STATUSES
    ensures es != [] && Over(es, statuses) && !ReactivationsWithinSorted(es)
  {
    es := [Excluded(NOBODY, DROPPED, 1), Excluded(NOBODY, ACTIVE, 3), Excluded(NOBODY, other, 2)];
    ReactivationCountCanExceedSorted(other);
  }

  lemma ThreeUpserts(a: Excluded, b: Excluded, c: Excluded)
    ensures RowAfter(None, [a, b, c]) == Some(Upsert(Some(Upsert(Some(Upsert(None, a)), b)), c))
  {
    assert [a, b, c] == [a, b] + [c] && [a, b] == [a] + [b] && [a] == [] + [a];
    RowAfterOne(None, [], a);
    RowAfterOne(None, [a], b);
    RowAfterOne(None, [a, b], c);
  }

  lemma LateMiddleIsSortedBack(d: Excluded, a: Excluded, p: Excluded)
    requires d.time < p.time < a.time
    ensures StableSort([d, a, p]) == [d, p, a]
  {
    assert [d, a, p][..2] == [d, a] && [d, a][..1] == [d] && [d][..0] == [];
    assert StableSort([d]) == [d];
    assert StableSort([d, a]) == [d, a];
    assert Insert([d], p) == [d, p];
  }

  // ---------- the report ----------

  /** One status observation of a flight, in read order. */
  datatype Sighting = Sighting(status: string, time: int, hasArrival: bool, ident: Identity)

  /** What the database-writer stores for it. */
  function Stored(s: Sighting): Excluded {
    Excluded(s.ident, Nz(s.status), s.time)
  }

  function StoredAll(ss: seq<Sighting>): seq<Excluded> {
    seq(|ss|, i requires 0 <= i < |ss| => Stored(ss[i]))
  }

  /** Put `x` after everything that is not newer; the report breaks ties by read order. */
  function InsertSighting(s: seq<Sighting>, x: Sighting): (r: seq<Sighting>)
    ensures |r| == |s| + 1
    ensures forall y :: y in r <==> y in s || y == x
  {
    InsertByMembers(s, x, SeenAt);
    InsertBy(s, x, SeenAt)
  }

  function SeenAt(s: Sighting): int {
    s.time
  }

  /** The flight's timeline: sightings that name a status, by timestamp and then read order. */
  function Timeline(ss: seq<Sighting>): (r: seq<Sighting>)
    ensures forall y :: y in r <==> y in ss && y.status != ""
  {
    if ss == [] then []
    else
      assert ss == ss[..|ss| - 1] + [ss[|ss| - 1]];
      var before, x := Timeline(ss[..|ss| - 1]), ss[|ss| - 1];
      if x.status == "" then before else InsertSighting(before, x)
  }

  ghost predicate DroppedAt(t: seq<Sighting>, i: int) {
    0 <= i < |t| && t[i].status == "DROPPED"
  }

  ghost predicate EverDropped(t: seq<Sighting>) {
    exists i :: DroppedAt(t, i)
  }

  ghost predicate DroppedThenActive(t: seq<Sighting>) {
    exists i, j :: DroppedAt(t, i) && i < j < |t| && t[j].status == "ACTIVE"
  }

  /** The drops among the first `n` sightings, all of them or only those that carry an arrival time. */
  ghost function DropsBefore(t: seq<Sighting>, n: nat, arrived: bool): set<int>
    requires n <= |t|
  {
    set k | 0 <= k < n && t[k].status == "DROPPED" && (arrived ==> t[k].hasArrival)
  }

  lemma DropsGrow(t: seq<Sighting>, n: nat, arrived: bool)
    requires n < |t|
    ensures |DropsBefore(t, n + 1, arrived)|
         == |DropsBefore(t, n, arrived)| + if t[n].status == "DROPPED" && (arrived ==> t[n].hasArrival) then 1 else 0
  {
    var added := if t[n].status == "DROPPED" && (arrived ==> t[n].hasArrival) then {n} else {};
    assert DropsBefore(t, n + 1, arrived) == DropsBefore(t, n, arrived) + added;
  }

  /** The scan of one sorted timeline: first drop, and whether the flight came back. */
  method ScanTimeline(t: seq<Sighting>)
    returns (firstDrop: int, sawActiveAfterDrop: bool, dropped: nat, droppedWithArrival: nat)
    ensures EverDropped(t) <==> firstDrop >= 0
    ensures firstDrop >= 0 ==> DroppedAt(t, firstDrop) && forall k :: DroppedAt(t, k) ==> firstDrop <= k
    ensures sawActiveAfterDrop <==> DroppedThenActive(t)
    ensures dropped == |DropsBefore(t, |t|, false)|
    ensures droppedWithArrival == |DropsBefore(t, |t|, true)|
  {
    firstDrop, sawActiveAfterDrop, dropped, droppedWithArrival := -1, false, 0, 0;
    var sawDrop := false;
    for i := 0 to |t|
      invariant sawDrop <==> firstDrop >= 0
      invariant sawDrop <==> EverDropped(t[..i])
      invariant sawDrop ==> DroppedAt(t, firstDrop) && firstDrop < i && forall k :: DroppedAt(t, k) ==> firstDrop <= k
      invariant sawActiveAfterDrop <==> DroppedThenActive(t[..i])
      invariant dropped == |DropsBefore(t, i, false)| && droppedWithArrival == |DropsBefore(t, i, true)|
    {
      ScanOneMore(t, i);
      DropsGrow(t, i, false);
      DropsGrow(t, i, true);
      if t[i].status == "DROPPED" {
        dropped := dropped + 1;
        if t[i].hasArrival {
          droppedWithArrival := droppedWithArrival + 1;
        }
        if !sawDrop {
          sawDrop := true;
          firstDrop := i;
          NoEarlierDrop(t, i);
        }
      }
      if sawDrop && t[i].status == "ACTIVE" {
        sawActiveAfterDrop := true;
      }
    }
    assert t[..|t|] == t;
  }

  lemma NoEarlierDrop(t: seq<Sighting>, i: nat)
    requires i < |t| && !EverDropped(t[..i])
    ensures forall k :: DroppedAt(t, k) ==> i <= k
  {
    assert forall k :: DroppedAt(t, k) && k < i ==> DroppedAt(t[..i], k);
  }

  lemma EverDroppedOneMore(a: seq<Sighting>, x: Sighting)
    ensures EverDropped(a + [x]) <==> EverDropped(a) || x.status == "DROPPED"
  {
    var b := a + [x];
    assert forall k :: DroppedAt(a, k) ==> DroppedAt(b, k);
    assert forall k :: DroppedAt(b, k) && k < |a| ==> DroppedAt(a, k);
    assert x.status == "DROPPED" ==> DroppedAt(b, |a|);
  }

  lemma ReturnIsKept(a: seq<Sighting>, x: Sighting)
    requires DroppedThenActive(a) || (EverDropped(a) && x.status == "ACTIVE")
    ensures DroppedThenActive(a + [x])
  {
    var b := a + [x];
    if DroppedThenActive(a) {
      var p, q :| DroppedAt(a, p) && p < q < |a| && a[q].status == "ACTIVE";
      assert DroppedAt(b, p) && b[q] == a[q];
    } else {
      var p :| DroppedAt(a, p);
      assert DroppedAt(b, p) && b[|a|] == x;
    }
  }

  lemma ReturnWasThere(a: seq<Sighting>, x: Sighting)
    requires DroppedThenActive(a + [x])
    ensures DroppedThenActive(a) || (EverDropped(a) && x.status == "ACTIVE")
  {
    var b := a + [x];
    var p, q :| DroppedAt(b, p) && p < q < |b| && b[q].status == "ACTIVE";
    assert DroppedAt(a, p);
    assert q < |a| ==> a[q] == b[q];
  }

  lemma ScanOneMore(t: seq<Sighting>, i: nat)
    requires i < |t|
    ensures EverDropped(t[..i + 1]) <==> EverDropped(t[..i]) || t[i].status == "DROPPED"
    ensures DroppedThenActive(t[..i + 1])
       <==> DroppedThenActive(t[..i]) || (EverDropped(t[..i]) && t[i].status == "ACTIVE")
  {
    assert t[..i + 1] == t[..i] + [t[i]];
    EverDroppedOneMore(t[..i], t[i]);
    if DroppedThenActive(t[..i + 1]) {
      ReturnWasThere(t[..i], t[i]);
    } else if DroppedThenActive(t[..i]) || (EverDropped(t[..i]) && t[i].status == "ACTIVE") {
      ReturnIsKept(t[..i], t[i]);
    }
  }

  lemma {:induction false} InsertKeepsReturn(t: seq<Sighting>, x: Sighting)
    requires DroppedThenActive(t)
    ensures DroppedThenActive(InsertSighting(t, x))
  {
    var i, j :| DroppedAt(t, i) && i < j < |t| && t[j].status == "ACTIVE";
    var r := InsertSighting(t, x);
    if t[|t| - 1].time <= x.time {
      assert DroppedAt(r, i) && r[j] == t[j];
    } else {
      var front, last := t[..|t| - 1], t[|t| - 1];
      var r' := InsertSighting(front, x);
      assert r == r' + [last];
      if j < |front| {
        assert DroppedAt(front, i) && front[j] == t[j];
        InsertKeepsReturn(front, x);
        var p, q :| DroppedAt(r', p) && p < q < |r'| && r'[q].status == "ACTIVE";
        assert DroppedAt(r, p) && r[q] == r'[q];
      } else {
        assert front[i] in r';
        var p :| 0 <= p < |r'| && r'[p] == front[i];
        assert DroppedAt(r, p) && r[|r'|] == last;
      }
    }
  }

  lemma NzIsExact(s: string)
    ensures Nz(s) == DROPPED <==> s == "DROPPED"
    ensures Nz(s) == ACTIVE <==> s == "ACTIVE"
  {
    assert !IsSpace("DROPPED"[0]) && "DROPPED"[0] in "DROPPED";
    assert !IsSpace("ACTIVE"[0]) && "ACTIVE"[0] in "ACTIVE";
  }

  lemma NzIsExactHere(s: Sighting)
    ensures Stored(s).status == DROPPED <==> s.status == "DROPPED"
    ensures Stored(s).status == ACTIVE <==> s.status == "ACTIVE"
  {
    NzIsExact(s.status);
  }

  /** A reactivation the database counted is one the sorted report confirms. */
  lemma {:induction false} ReactivationIsConfirmedOffline(ss: seq<Sighting>)
    requires ss != []
    requires RowAfter(None, StoredAll(ss)).value.reactivations > 0
    ensures DroppedThenActive(Timeline(ss))
  {
    var n := |ss| - 1;
    var es := StoredAll(ss);
    assert es[..n] == StoredAll(ss[..n]);
    if n > 0 {
      var before, t, x := RowAfter(None, es[..n]).value, Timeline(ss[..n]), ss[n];
      NzIsExactHere(x);
      if before.reactivations > 0 {
        ReactivationIsConfirmedOffline(ss[..n]);
        if x.status != "" {
          InsertKeepsReturn(t, x);
        }
      } else {
        ReturnOfNewest(ss[..n], x);
      }
    }
  }

  /** A row that has just gone from DROPPED to ACTIVE: the newest sighting so far was the drop. */
  lemma ReturnOfNewest(ss: seq<Sighting>, x: Sighting)
    requires ss != [] && x.status == "ACTIVE"
    requires var row := RowAfter(None, StoredAll(ss)).value;
      row.status == DROPPED && row.statusTime.Some? && row.statusTime.value <= x.time
    ensures DroppedThenActive(InsertSighting(Timeline(ss), x))
  {
    var es, t := StoredAll(ss), Timeline(ss);
    var w := LastLatest(None, es);
    NzIsExactHere(ss[w]);
    assert ss[w] in t;
    forall y | y in t ensures y.time <= x.time {
      var k :| 0 <= k < |ss| && ss[k] == y;
      assert es[k].time <= es[w].time;
    }
    NewestGoesLast(t, x, ss[w]);
  }

  lemma NewestGoesLast(t: seq<Sighting>, x: Sighting, drop: Sighting)
    requires drop in t && drop.status == "DROPPED" && x.status == "ACTIVE"
    requires forall y :: y in t ==> y.time <= x.time
    ensures DroppedThenActive(InsertSighting(t, x))
  {
    var i :| 0 <= i < |t| && t[i] == drop;
    assert t[|t| - 1] in t;
    assert DroppedAt(t + [x], i) && (t + [x])[|t|] == x;
  }
}
