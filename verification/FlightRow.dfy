/**
 One row of the `flights` table as a transition function: what a single `upsertFlightSQL`
 does to it, and what any sequence of them leaves behind.
 */
module FlightRow {
  import opened Sql

  const DROPPED: Option<string> := Some("DROPPED")
  const ACTIVE: Option<string> := Some("ACTIVE")

  /** The columns merged with `COALESCE(flights.c, EXCLUDED.c)`. */
  datatype Identity = Identity(
    callSign: Option<string>,
    registration: Option<string>,
    aircraftType: Option<string>,
    origin: Option<string>,
    destination: Option<string>,
    departure: Option<int>,
    arrival: Option<int>)

  /** Nothing known. */
  const NOBODY := Identity(None, None, None, None, None, None, None)

  /** The values a statement proposes; `time` is never null because `parseTimeOr` always yields one. */
  datatype Excluded = Excluded(ident: Identity, status: Option<string>, time: int)

  datatype Row = Row(
    ident: Identity,
    status: Option<string>,
    statusTime: Option<int>,
    drops: nat,
    reactivations: nat)

  function Merge(known: Identity, latest: Identity): Identity {
    Identity(
      Coalesce(known.callSign, latest.callSign),
      Coalesce(known.registration, latest.registration),
      Coalesce(known.aircraftType, latest.aircraftType),
      Coalesce(known.origin, latest.origin),
      Coalesce(known.destination, latest.destination),
      Coalesce(known.departure, latest.departure),
      Coalesce(known.arrival, latest.arrival))
  }

  function When(condition: Truth): nat {
    if condition == Yes then 1 else 0
  }

  /** `INSERT ... ON CONFLICT (gufi) DO UPDATE` */
  function Upsert(existing: Option<Row>, e: Excluded): Row {
    if existing.None? then
      Row(e.ident, e.status, Some(e.time), 0, 0)
    else
      var r := existing.value;
      var current := AtLeast(Some(e.time), r.statusTime);
      Row(
        Merge(r.ident, e.ident),
        if Or(IsNull(r.statusTime), current) == Yes then e.status else r.status,
        Greatest(r.statusTime, Some(e.time)),
        r.drops + When(And(And(current, IsDistinctFrom(r.status, DROPPED)), EqualTo(e.status, "DROPPED"))),
        r.reactivations + When(And(And(current, EqualTo(r.status, "DROPPED")), EqualTo(e.status, "ACTIVE"))))
  }

  /** The row after a run of upserts, in arrival order. */
  function RowAfter(r: Option<Row>, es: seq<Excluded>): Option<Row> {
    if es == [] then r else Some(Upsert(RowAfter(r, es[..|es| - 1]), es[|es| - 1]))
  }

  lemma {:induction false} RowAfterConcat(r: Option<Row>, a: seq<Excluded>, b: seq<Excluded>)
    ensures RowAfter(r, a + b) == RowAfter(RowAfter(r, a), b)
  {
    if b == [] {
      assert a + b == a;
    } else {
      var n := |b| - 1;
      assert (a + b)[..|a + b| - 1] == a + b[..n];
      RowAfterConcat(r, a, b[..n]);
    }
  }

  lemma RowAfterOne(r: Option<Row>, es: seq<Excluded>, e: Excluded)
    ensures RowAfter(r, es + [e]) == Some(Upsert(RowAfter(r, es), e))
  {
    assert (es + [e])[..|es|] == es;
  }

  // ---------- status and status_time ----------

  ghost predicate IsLatest(es: seq<Excluded>, i: int) {
    0 <= i < |es| && forall k :: 0 <= k < |es| ==> es[k].time <= es[i].time
  }

  /** `es[i]` carries the greatest timestamp, and no later arrival carries it too. */
  ghost predicate IsLastLatest(es: seq<Excluded>, i: int) {
    IsLatest(es, i) && forall k :: i < k < |es| ==> es[k].time < es[i].time
  }

  /**
   Whatever the arrival order, the stored status is that of the last-arrived message among
   those with the greatest timestamp, and `status_time`, which is never null, is that timestamp.
   */
  lemma {:induction false} StatusFollowsLastLatest(es: seq<Excluded>)
    requires es != []
    ensures exists i :: IsLastLatest(es, i)
    ensures RowAfter(None, es).Some?
    ensures forall i :: IsLastLatest(es, i) ==>
      var row := RowAfter(None, es).value;
      row.status == es[i].status && row.statusTime == Some(es[i].time)
  {
    var i := LastLatest(None, es);
    forall j | IsLastLatest(es, j) ensures j == i {
      assert es[i].time == es[j].time;
    }
  }

  /** One more arrival either takes the lead or leaves it where it was. */
  lemma LastLatestSnoc(es: seq<Excluded>, i: int)
    requires |es| > 1 && IsLastLatest(es[..|es| - 1], i)
    ensures IsLastLatest(es, if es[|es| - 1].time >= es[i].time then |es| - 1 else i)
  {
    var n := |es| - 1;
    assert forall k :: 0 <= k < n ==> es[..n][k] == es[k];
  }

  /** The message is at least as recent as the row. */
  predicate Beats(e: Excluded, r: Option<Row>) {
    r.None? || r.value.statusTime.None? || e.time >= r.value.statusTime.value
  }

  predicate SameLifecycle(a: Row, b: Row) {
    a.status == b.status && a.statusTime == b.statusTime && a.drops == b.drops && a.reactivations == b.reactivations
  }

  /** The same for a row that existed before: it is beaten only by a message at least as recent. */
  lemma {:induction false} LastLatest(r: Option<Row>, es: seq<Excluded>) returns (i: int)
    requires es != []
    ensures IsLastLatest(es, i)
    ensures RowAfter(r, es).value.statusTime.Some?
    ensures Beats(es[i], r) ==>
      RowAfter(r, es).value.status == es[i].status && RowAfter(r, es).value.statusTime == Some(es[i].time)
    ensures !Beats(es[i], r) ==> SameLifecycle(RowAfter(r, es).value, r.value)
  {
    var n := |es| - 1;
    if n == 0 {
      i := 0;
    } else {
      i := LastLatest(r, es[..n]);
      LastLatestSnoc(es, i);
      if es[n].time >= es[i].time {
        i := n;
      }
    }
  }

  // ---------- identity columns ----------

  function FirstKnown<T>(vs: seq<Option<T>>): Option<T> {
    if vs == [] then None
    else if vs[0].Some? then vs[0]
    else FirstKnown(vs[1..])
  }

  lemma {:induction false} FirstKnownSnoc<T>(vs: seq<Option<T>>, v: Option<T>)
    ensures FirstKnown(vs + [v]) == Coalesce(FirstKnown(vs), v)
  {
    if vs != [] {
      assert (vs + [v])[1..] == vs[1..] + [v];
      FirstKnownSnoc(vs[1..], v);
    }
  }

  function Column<T>(es: seq<Excluded>, column: Identity -> Option<T>): seq<Option<T>> {
    seq(|es|, i requires 0 <= i < |es| => column(es[i].ident))
  }

  /** The value a column would have if a reader scanned the messages for the first one that knows it. */
  ghost function FirstValues(es: seq<Excluded>): Identity {
    Identity(
      FirstKnown(Column(es, (d: Identity) => d.callSign)),
      FirstKnown(Column(es, (d: Identity) => d.registration)),
      FirstKnown(Column(es, (d: Identity) => d.aircraftType)),
      FirstKnown(Column(es, (d: Identity) => d.origin)),
      FirstKnown(Column(es, (d: Identity) => d.destination)),
      FirstKnown(Column(es, (d: Identity) => d.departure)),
      FirstKnown(Column(es, (d: Identity) => d.arrival)))
  }

  lemma FirstKnownInColumn<T>(es: seq<Excluded>, column: Identity -> Option<T>)
    requires es != []
    ensures FirstKnown(Column(es, column))
         == Coalesce(FirstKnown(Column(es[..|es| - 1], column)), column(es[|es| - 1].ident))
  {
    var n := |es| - 1;
    assert Column(es, column) == Column(es[..n], column) + [column(es[n].ident)];
    FirstKnownSnoc(Column(es[..n], column), column(es[n].ident));
  }

  /** Every identity column holds the first non-null value that arrived for it, field by field. */
  lemma {:induction false} IdentityIsFirstKnown(es: seq<Excluded>)
    requires es != []
    ensures RowAfter(None, es).value.ident == FirstValues(es)
  {
    FirstKnownInColumn(es, (d: Identity) => d.callSign);
    FirstKnownInColumn(es, (d: Identity) => d.registration);
    FirstKnownInColumn(es, (d: Identity) => d.aircraftType);
    FirstKnownInColumn(es, (d: Identity) => d.origin);
    FirstKnownInColumn(es, (d: Identity) => d.destination);
    FirstKnownInColumn(es, (d: Identity) => d.departure);
    FirstKnownInColumn(es, (d: Identity) => d.arrival);
    if |es| > 1 {
      IdentityIsFirstKnown(es[..|es| - 1]);
    }
  }

  /** `a` knows everything `b` knows, with the same values. */
  predicate Keeps(a: Identity, b: Identity) {
    Merge(b, a) == a
  }

  predicate AddsNothing(b: Identity, a: Identity) {
    Merge(a, b) == a
  }

  /** A known column is never changed or blanked, and a message has nothing left to add once it has arrived. */
  lemma {:induction false} KnownIdentityIsKept(r: Option<Row>, es: seq<Excluded>)
    ensures r.Some? ==> Keeps(RowAfter(r, es).value.ident, r.value.ident)
    ensures forall k :: 0 <= k < |es| ==> AddsNothing(es[k].ident, RowAfter(r, es).value.ident)
  {
    if es != [] {
      var n := |es| - 1;
      KnownIdentityIsKept(r, es[..n]);
      assert forall k :: 0 <= k < n ==> es[k] == es[..n][k];
    }
  }

  // ---------- the edge counters ----------

  /** The messages that were at least as recent as everything before them. */
  function Accepted(es: seq<Excluded>): (kept: seq<Excluded>)
    ensures es != [] ==> kept != []
    ensures es == [] ==> kept == []
  {
    if es == [] then []
    else
      Accept(Accepted(es[..|es| - 1]), es[|es| - 1])
  }

  /** Consecutive pairs that enter DROPPED from something else. */
  function Drops(es: seq<Excluded>): nat {
    if |es| < 2 then 0
    else
      var n := |es| - 1;
      Drops(es[..n]) + if es[n - 1].status != DROPPED && es[n].status == DROPPED then 1 else 0
  }

  /** Consecutive pairs that go from DROPPED straight to ACTIVE. */
  function Returns(es: seq<Excluded>): nat {
    if |es| < 2 then 0
    else
      var n := |es| - 1;
      Returns(es[..n]) + if es[n - 1].status == DROPPED && es[n].status == ACTIVE then 1 else 0
  }

  /** The counters count exactly the edges of the accepted messages, so stale messages count for nothing. */
  lemma {:induction false} CountersCountAcceptedEdges(es: seq<Excluded>)
    requires es != []
    ensures CountsEdgesOf(RowAfter(None, es).value, Accepted(es))
  {
    var n := |es| - 1;
    if n == 0 {
      assert Accepted(es) == [es[0]];
    } else {
      CountersCountAcceptedEdges(es[..n]);
      AcceptedGrows(es);
      OneMoreEdge(RowAfter(None, es[..n]).value, Accepted(es[..n]), es[n]);
    }
  }

  /** The row ends where these messages end and has counted their edges. */
  ghost predicate CountsEdgesOf(row: Row, kept: seq<Excluded>) {
    && kept != []
    && row.drops == Drops(kept)
    && row.reactivations == Returns(kept)
    && row.status == kept[|kept| - 1].status
    && row.statusTime == Some(kept[|kept| - 1].time)
  }

  function Accept(kept: seq<Excluded>, e: Excluded): seq<Excluded> {
    if kept == [] || e.time >= kept[|kept| - 1].time then kept + [e] else kept
  }

  lemma AcceptedGrows(es: seq<Excluded>)
    requires es != []
    ensures Accepted(es) == Accept(Accepted(es[..|es| - 1]), es[|es| - 1])
  {
  }

  lemma OneMoreEdge(row: Row, kept: seq<Excluded>, e: Excluded)
    requires CountsEdgesOf(row, kept)
    ensures CountsEdgesOf(Upsert(Some(row), e), Accept(kept, e))
  {
    if e.time >= kept[|kept| - 1].time {
      assert (kept + [e])[..|kept|] == kept;
    }
  }

  function OneIf(b: bool): nat {
    if b then 1 else 0
  }

  /**
   Every reactivation leaves a drop behind: reactivations, plus one if the flight is dropped now,
   never exceed drops, plus one if the very first stored status was already DROPPED.
   */
  lemma {:induction false} ReactivationsNeverExceedDrops(es: seq<Excluded>)
    requires es != []
    ensures var row := RowAfter(None, es).value;
      row.reactivations + OneIf(row.status == DROPPED) <= row.drops + OneIf(es[0].status == DROPPED)
  {
    var n := |es| - 1;
    if n > 0 {
      ReactivationsNeverExceedDrops(es[..n]);
      StatusFollowsLastLatest(es[..n]);
    }
  }

  /** A message older than the row changes neither status, time nor counters. */
  lemma StaleMessageOnlyFillsIdentity(r: Row, e: Excluded)
    requires r.statusTime.Some? && e.time < r.statusTime.value
    ensures Upsert(Some(r), e) == r.(ident := Merge(r.ident, e.ident))
  {
  }

  // ---------- replay ----------

  /**
   Equal timestamps carry equal statuses, wherever the timestamp is the greatest so far.
   (A tie among already stale messages is harmless and is not restricted.)
   */
  ghost predicate TieSafe(es: seq<Excluded>) {
    forall i, j :: 0 <= i < j < |es| && es[i].time == es[j].time && IsLatest(es[..j + 1], j)
      ==> es[i].status == es[j].status
  }

  lemma TieSafePrefix(es: seq<Excluded>, n: nat)
    requires n <= |es| && TieSafe(es)
    ensures TieSafe(es[..n])
  {
    forall i, j | 0 <= i < j < n && es[i].time == es[j].time && IsLatest(es[..n][..j + 1], j)
      ensures es[i].status == es[j].status
    {
      assert es[..n][..j + 1] == es[..j + 1];
    }
  }

  /** Under the tie rule, delivering a message again changes nothing at all. */
  lemma RedeliveryIsNoOp(r: Option<Row>, es: seq<Excluded>, i: nat)
    requires i < |es| && TieSafe(es)
    ensures Some(Upsert(RowAfter(r, es), es[i])) == RowAfter(r, es)
  {
    var row := RowAfter(r, es).value;
    assert AddsNothing(es[i].ident, row.ident) by {
      KnownIdentityIsKept(r, es);
    }
    var w := LastLatest(r, es);
    if es[i].time == row.statusTime.value {
      assert es[i].status == row.status by {
        assert es[i].time == es[w].time;
        assert i < w ==> IsLatest(es[..w + 1], w);
      }
    }
  }
}
