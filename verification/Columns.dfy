/**
 What the columns of the three tables hold, told from the messages alone: which text, which number,
 which time ends up where.
 */
module Columns {
  import opened Sql
  import opened Text
  import opened FlightRow
  import opened Tables
  import Lifecycle

  ghost predicate Blank(text: string) {
    forall i :: 0 <= i < |text| ==> IsSpace(text[i])
  }

  /** A text column is null for a blank text and holds any other as it came. */
  ghost predicate HoldsText(column: Option<string>, text: string) {
    if Blank(text) then column == None else column == Some(text)
  }

  lemma NzHolds(text: string)
    ensures HoldsText(Nz(text), text)
  {
    assert forall c :: c in text ==> exists i :: 0 <= i < |text| && text[i] == c;
  }

  // ---------- positions ----------

  /** The row is the message's position, column by column. */
  ghost predicate StoresPosition(row: PositionRow, a: Arrival) {
    var f := a.flight;
    f.position.Some? &&
    var p := f.position.value;
    && row.gufi == f.gufi && row.lat == p.lat && row.lon == p.lon && row.alt == p.alt
    && (p.motion.Some? ==> row.heading == Some(p.motion.value.heading) && row.speedKt == Some(p.motion.value.speedKt))
    && (p.motion.None? ==> row.heading == None && row.speedKt == None)
    && HoldsText(row.status, f.status)
    && (p.time.Some? ==> row.time == p.time.value)
    && (p.time.None? && f.timestamp.Some? ==> row.time == f.timestamp.value)
    && (p.time.None? && f.timestamp.None? ==> row.time == a.positionClock)
  }

  /** The messages that carry a position, in order. */
  function Carriers(batch: seq<Arrival>): seq<Arrival> {
    if batch == [] then []
    else
      var before, a := Carriers(batch[..|batch| - 1]), batch[|batch| - 1];
      if a.flight.position.Some? then before + [a] else before
  }

  ghost predicate RowsStore(rows: seq<PositionRow>, carriers: seq<Arrival>) {
    |rows| == |carriers| && forall k :: 0 <= k < |rows| ==> StoresPosition(rows[k], carriers[k])
  }

  lemma OneMoreStored(rows: seq<PositionRow>, carriers: seq<Arrival>, row: PositionRow, a: Arrival)
    requires RowsStore(rows, carriers) && StoresPosition(row, a)
    ensures RowsStore(rows + [row], carriers + [a])
  {
  }

  lemma PositionRowStores(a: Arrival)
    requires a.flight.position.Some?
    ensures StoresPosition(PositionRowOf(a), a)
  {
    NzHolds(a.flight.status);
  }

  lemma {:induction false} PositionsStoreCarriers(batch: seq<Arrival>)
    ensures RowsStore(PositionsOf(batch), Carriers(batch))
  {
    if batch != [] {
      var before, a := batch[..|batch| - 1], batch[|batch| - 1];
      PositionsStoreCarriers(before);
      if a.flight.position.Some? {
        PositionRowStores(a);
        OneMoreStored(PositionsOf(before), Carriers(before), PositionRowOf(a), a);
      }
    }
  }

  /** `after` is `before` with one row for each message that carries a position, in message order. */
  ghost predicate AppendsPositions(before: seq<PositionRow>, after: seq<PositionRow>, batch: seq<Arrival>) {
    before <= after && RowsStore(after[|before|..], Carriers(batch))
  }

  /** What recording a batch does to `positions`. */
  lemma RecordingAppendsPositions(db: Db, batch: seq<Arrival>)
    ensures AppendsPositions(db.positions, RecordEach(db, batch).positions, batch)
  {
    RecordEachByTable(db, batch);
    PositionsStoreCarriers(batch);
    assert (db.positions + PositionsOf(batch))[|db.positions|..] == PositionsOf(batch);
  }

  // ---------- flights ----------

  /** What a statement proposes for the row of a flight, column by column. */
  ghost predicate Proposes(e: Excluded, a: Arrival) {
    var f, d := a.flight, e.ident;
    && HoldsText(d.callSign, f.callSign) && HoldsText(d.registration, f.registration)
    && HoldsText(d.aircraftType, f.aircraftType)
    && HoldsText(d.origin, f.origin) && HoldsText(d.destination, f.destination)
    && d.departure == f.departure && d.arrival == f.arrival
    && HoldsText(e.status, f.status)
    && (f.timestamp.Some? ==> e.time == f.timestamp.value)
    && (f.timestamp.None? ==> e.time == a.flightClock)
  }

  lemma ProposedRowProposes(a: Arrival)
    ensures Proposes(ProposedRow(a), a)
  {
    var f := a.flight;
    NzHolds(f.callSign);
    NzHolds(f.registration);
    NzHolds(f.aircraftType);
    NzHolds(f.origin);
    NzHolds(f.destination);
    NzHolds(f.status);
  }

  /** The messages of one flight, in order. */
  function MessagesOf(batch: seq<Arrival>, gufi: string): seq<Arrival> {
    if batch == [] then []
    else
      var before, a := MessagesOf(batch[..|batch| - 1], gufi), batch[|batch| - 1];
      if a.flight.gufi == gufi then before + [a] else before
  }

  ghost predicate RowsPropose(rows: seq<Excluded>, ms: seq<Arrival>) {
    |rows| == |ms| && forall k :: 0 <= k < |rows| ==> Proposes(rows[k], ms[k])
  }

  lemma OneMoreProposed(rows: seq<Excluded>, ms: seq<Arrival>, e: Excluded, a: Arrival)
    requires RowsPropose(rows, ms) && Proposes(e, a)
    ensures RowsPropose(rows + [e], ms + [a])
  {
  }

  lemma {:induction false} RowsProposeMessages(batch: seq<Arrival>, gufi: string)
    ensures RowsPropose(RowsOf(batch, gufi), MessagesOf(batch, gufi))
  {
    if batch != [] {
      var before, a := batch[..|batch| - 1], batch[|batch| - 1];
      RowsProposeMessages(before, gufi);
      ProposedRowProposes(a);
      if a.flight.gufi == gufi {
        OneMoreProposed(RowsOf(before, gufi), MessagesOf(before, gufi), ProposedRow(a), a);
      }
    }
  }

  /** The first text that is not blank. */
  ghost function FirstText(texts: seq<string>): Option<string> {
    if texts == [] then None else if Blank(texts[0]) then FirstText(texts[1..]) else Some(texts[0])
  }

  /** The first time that parsed. */
  function FirstTime(times: seq<Option<int>>): Option<int> {
    if times == [] then None else if times[0].Some? then times[0] else FirstTime(times[1..])
  }

  function Texts(ms: seq<Arrival>, pick: Flight -> string): seq<string> {
    seq(|ms|, i requires 0 <= i < |ms| => pick(ms[i].flight))
  }

  function Times(ms: seq<Arrival>, pick: Flight -> Option<int>): seq<Option<int>> {
    seq(|ms|, i requires 0 <= i < |ms| => pick(ms[i].flight))
  }

  lemma {:induction false} FirstKnownIsFirstText(columns: seq<Option<string>>, texts: seq<string>)
    requires |columns| == |texts| && forall k :: 0 <= k < |texts| ==> HoldsText(columns[k], texts[k])
    ensures FirstKnown(columns) == FirstText(texts)
  {
    if texts != [] {
      FirstKnownIsFirstText(columns[1..], texts[1..]);
    }
  }

  lemma {:induction false} FirstKnownIsFirstTime(columns: seq<Option<int>>)
    ensures FirstKnown(columns) == FirstTime(columns)
  {
    if columns != [] {
      FirstKnownIsFirstTime(columns[1..]);
    }
  }

  lemma ColumnOfTexts(
    rows: seq<Excluded>, ms: seq<Arrival>, column: Identity -> Option<string>, pick: Flight -> string)
    requires |rows| == |ms| && forall k :: 0 <= k < |rows| ==> HoldsText(column(rows[k].ident), pick(ms[k].flight))
    ensures FirstKnown(Column(rows, column)) == FirstText(Texts(ms, pick))
  {
    FirstKnownIsFirstText(Column(rows, column), Texts(ms, pick));
  }

  /** The identity columns, told from the messages of the flight. */
  ghost predicate ShowsFirst(d: Identity, ms: seq<Arrival>) {
    && d.callSign == FirstText(Texts(ms, (f: Flight) => f.callSign))
    && d.registration == FirstText(Texts(ms, (f: Flight) => f.registration))
    && d.aircraftType == FirstText(Texts(ms, (f: Flight) => f.aircraftType))
    && d.origin == FirstText(Texts(ms, (f: Flight) => f.origin))
    && d.destination == FirstText(Texts(ms, (f: Flight) => f.destination))
    && d.departure == FirstTime(Times(ms, (f: Flight) => f.departure))
    && d.arrival == FirstTime(Times(ms, (f: Flight) => f.arrival))
  }

  lemma FirstValuesShowFirst(rows: seq<Excluded>, ms: seq<Arrival>)
    requires RowsPropose(rows, ms)
    ensures ShowsFirst(FirstValues(rows), ms)
  {
    ColumnOfTexts(rows, ms, (d: Identity) => d.callSign, (f: Flight) => f.callSign);
    ColumnOfTexts(rows, ms, (d: Identity) => d.registration, (f: Flight) => f.registration);
    ColumnOfTexts(rows, ms, (d: Identity) => d.aircraftType, (f: Flight) => f.aircraftType);
    ColumnOfTexts(rows, ms, (d: Identity) => d.origin, (f: Flight) => f.origin);
    ColumnOfTexts(rows, ms, (d: Identity) => d.destination, (f: Flight) => f.destination);
    TimesOfFlights(rows, ms);
  }

  lemma TimesOfFlights(rows: seq<Excluded>, ms: seq<Arrival>)
    requires RowsPropose(rows, ms)
    ensures FirstKnown(Column(rows, (d: Identity) => d.departure)) == FirstTime(Times(ms, (f: Flight) => f.departure))
    ensures FirstKnown(Column(rows, (d: Identity) => d.arrival)) == FirstTime(Times(ms, (f: Flight) => f.arrival))
  {
    var departures, arrivals := Column(rows, (d: Identity) => d.departure), Column(rows, (d: Identity) => d.arrival);
    assert departures == Times(ms, (f: Flight) => f.departure);
    assert arrivals == Times(ms, (f: Flight) => f.arrival);
    FirstKnownIsFirstTime(departures);
    FirstKnownIsFirstTime(arrivals);
  }

  /** The instant a message counts for: its own, or the clock's when it has none. */
  function CountsFor(a: Arrival): int {
    if a.flight.timestamp.Some? then a.flight.timestamp.value else a.flightClock
  }

  /** `ms[i]` is the last of the messages with the greatest instant. */
  ghost predicate IsNewest(ms: seq<Arrival>, i: int) {
    && 0 <= i < |ms|
    && (forall k :: 0 <= k < |ms| ==> CountsFor(ms[k]) <= CountsFor(ms[i]))
    && (forall k :: i < k < |ms| ==> CountsFor(ms[k]) < CountsFor(ms[i]))
  }

  /**
   The row of a flight that was not there before: the first text or time known for each identity
   column, and the status and instant of the newest message, the last of ties.
   */
  lemma FlightColumns(db: Db, batch: seq<Arrival>, gufi: string, i: nat)
    requires gufi !in db.flights && IsNewest(MessagesOf(batch, gufi), i)
    ensures gufi in RecordEach(db, batch).flights
    ensures var row, ms := RecordEach(db, batch).flights[gufi], MessagesOf(batch, gufi);
      && ShowsFirst(row.ident, ms)
      && HoldsText(row.status, ms[i].flight.status)
      && row.statusTime == Some(CountsFor(ms[i]))
  {
    var rows, ms := RowsOf(batch, gufi), MessagesOf(batch, gufi);
    RowsProposeMessages(batch, gufi);
    FlightsAreIndependent(db, batch, gufi);
    IdentityIsFirstKnown(rows);
    FirstValuesShowFirst(rows, ms);
    NewestIsLastLatest(rows, ms, i);
    StatusFollowsLastLatest(rows);
  }

  lemma NewestIsLastLatest(rows: seq<Excluded>, ms: seq<Arrival>, i: nat)
    requires RowsPropose(rows, ms) && IsNewest(ms, i)
    ensures IsLastLatest(rows, i) && rows[i].time == CountsFor(ms[i]) && HoldsText(rows[i].status, ms[i].flight.status)
  {
    assert forall k :: 0 <= k < |rows| ==> rows[k].time == CountsFor(ms[k]) by {
      forall k | 0 <= k < |rows| ensures rows[k].time == CountsFor(ms[k]) {
        assert Proposes(rows[k], ms[k]);
      }
    }
    assert Proposes(rows[i], ms[i]);
  }

  // ---------- the lifecycle report ----------

  /** How the offline report sees a message of a flight. */
  function SightingOf(a: Arrival, arrived: Arrival -> bool): Lifecycle.Sighting {
    Lifecycle.Sighting(a.flight.status, CountsFor(a), arrived(a), ProposedRow(a).ident)
  }

  function SightingsOf(ms: seq<Arrival>, arrived: Arrival -> bool): seq<Lifecycle.Sighting> {
    seq(|ms|, i requires 0 <= i < |ms| => SightingOf(ms[i], arrived))
  }

  lemma SightingIsStored(a: Arrival, arrived: Arrival -> bool)
    ensures Lifecycle.Stored(SightingOf(a, arrived)) == ProposedRow(a)
  {
  }

  lemma {:induction false} SightingsAreStored(batch: seq<Arrival>, gufi: string, arrived: Arrival -> bool)
    ensures Lifecycle.StoredAll(SightingsOf(MessagesOf(batch, gufi), arrived)) == RowsOf(batch, gufi)
  {
    if batch != [] {
      var before, a := batch[..|batch| - 1], batch[|batch| - 1];
      SightingsAreStored(before, gufi, arrived);
      SightingIsStored(a, arrived);
      var ms := MessagesOf(before, gufi);
      if a.flight.gufi == gufi {
        OneMoreSighting(ms, a, arrived, RowsOf(before, gufi));
      }
    }
  }

  lemma OneMoreSighting(ms: seq<Arrival>, a: Arrival, arrived: Arrival -> bool, rows: seq<Excluded>)
    requires Lifecycle.StoredAll(SightingsOf(ms, arrived)) == rows
    ensures Lifecycle.StoredAll(SightingsOf(ms + [a], arrived)) == rows + [ProposedRow(a)]
  {
    SightingIsStored(a, arrived);
    assert SightingsOf(ms + [a], arrived) == SightingsOf(ms, arrived) + [SightingOf(a, arrived)];
    var ss := SightingsOf(ms, arrived);
    assert Lifecycle.StoredAll(ss + [SightingOf(a, arrived)]) == Lifecycle.StoredAll(ss) + [ProposedRow(a)];
  }

  /** A reactivation in the table is one the report on the same messages confirms, in whatever order they came. */
  lemma ReportConfirmsTheTable(db: Db, batch: seq<Arrival>, gufi: string, arrived: Arrival -> bool)
    requires gufi !in db.flights && gufi in RecordEach(db, batch).flights
    requires RecordEach(db, batch).flights[gufi].reactivations > 0
    ensures Lifecycle.DroppedThenActive(Lifecycle.Timeline(SightingsOf(MessagesOf(batch, gufi), arrived)))
  {
    FlightsAreIndependent(db, batch, gufi);
    SightingsAreStored(batch, gufi, arrived);
    Lifecycle.ReactivationIsConfirmedOffline(SightingsOf(MessagesOf(batch, gufi), arrived));
  }

  // ---------- airports ----------

  /** The usable coordinates a message gives for an airport, the origin's first. */
  function CoordsIn(f: Flight, code: string): Option<Coord> {
    if f.origin == code && f.originCoord.ok then Some(f.originCoord)
    else if f.destination == code && f.destinationCoord.ok then Some(f.destinationCoord)
    else None
  }

  function FirstCoords(batch: seq<Arrival>, code: string): Option<Coord> {
    if batch == [] then None
    else
      var before := FirstCoords(batch[..|batch| - 1], code);
      if before.Some? then before else CoordsIn(batch[|batch| - 1].flight, code)
  }

  ghost predicate Named(batch: seq<Arrival>, code: string) {
    && code != ""
    && exists k :: 0 <= k < |batch| && (batch[k].flight.origin == code || batch[k].flight.destination == code)
  }

  /** A coordinate that was known stays; one that was not is the first usable one of the batch. */
  ghost predicate HoldsCoords(after: Airport, before: Option<Airport>, first: Option<Coord>) {
    && (before.Some? && before.value.lat.Some? ==> after.lat == before.value.lat)
    && (before.Some? && before.value.lon.Some? ==> after.lon == before.value.lon)
    && (before.None? || before.value.lat.None? ==> after.lat == if first.Some? then Some(first.value.lat) else None)
    && (before.None? || before.value.lon.None? ==> after.lon == if first.Some? then Some(first.value.lon) else None)
  }

  lemma MentionHolds(
    airports: map<string, Airport>, at: string, c: Coord, code: string, before: Option<Airport>, first: Option<Coord>)
    requires code != ""
    requires first.Some? ==> first.value.ok
    requires code in airports ==> HoldsCoords(airports[code], before, first)
    requires code !in airports ==> before.None? && first.None?
    ensures var after, now := Mention(airports, at, c), if first.None? && at == code && c.ok then Some(c) else first;
      && (code in after <==> code in airports || at == code)
      && (code in after ==> HoldsCoords(after[code], before, now))
  {
  }

  lemma {:induction false} FirstCoordsAreUsable(batch: seq<Arrival>, code: string)
    ensures FirstCoords(batch, code).Some? ==> FirstCoords(batch, code).value.ok
    ensures FirstCoords(batch, code).Some? && code != "" ==> Named(batch, code)
  {
    if batch != [] {
      var n := |batch| - 1;
      FirstCoordsAreUsable(batch[..n], code);
      if Named(batch[..n], code) {
        var k :| 0 <= k < n && (batch[..n][k].flight.origin == code || batch[..n][k].flight.destination == code);
        assert batch[k].flight.origin == code || batch[k].flight.destination == code;
      }
    }
  }

  lemma NamedGrows(before: seq<Arrival>, a: Arrival, code: string)
    ensures Named(before + [a], code)
       <==> Named(before, code) || (code != "" && (a.flight.origin == code || a.flight.destination == code))
  {
    var all := before + [a];
    if Named(before, code) {
      var k :| 0 <= k < |before| && (before[k].flight.origin == code || before[k].flight.destination == code);
      assert all[k] == before[k];
    }
    if Named(all, code) {
      var k :| 0 <= k < |all| && (all[k].flight.origin == code || all[k].flight.destination == code);
      assert k < |before| ==> before[k] == all[k];
    }
    assert all[|before|] == a;
  }

  /** The airports after a batch, told from its messages: which exist, and where they are. */
  lemma {:induction false} AirportColumns(db: Db, batch: seq<Arrival>, code: string)
    requires code != ""
    ensures code in RecordEach(db, batch).airports <==> code in db.airports || Named(batch, code)
    ensures code in RecordEach(db, batch).airports ==>
      HoldsCoords(RecordEach(db, batch).airports[code], Lookup(db.airports, code), FirstCoords(batch, code))
    decreases |batch|
  {
    if batch != [] {
      var before, a := batch[..|batch| - 1], batch[|batch| - 1];
      assert batch == before + [a];
      AirportColumns(db, before, code);
      FirstCoordsAreUsable(before, code);
      NamedGrows(before, a, code);
      TwoMentionsHold(
        RecordEach(db, before).airports, a.flight, code, Lookup(db.airports, code), FirstCoords(before, code));
    }
  }

  lemma TwoMentionsHold(
    airports: map<string, Airport>, f: Flight, code: string, before: Option<Airport>, first: Option<Coord>)
    requires code != "" && (first.Some? ==> first.value.ok)
    requires code in airports ==> HoldsCoords(airports[code], before, first)
    requires code !in airports ==> before.None? && first.None?
    ensures var after := Mention(Mention(airports, f.origin, f.originCoord), f.destination, f.destinationCoord);
      && (code in after <==> code in airports || f.origin == code || f.destination == code)
      && (code in after ==> HoldsCoords(after[code], before, if first.Some? then first else CoordsIn(f, code)))
  {
    var mid := if first.None? && f.origin == code && f.originCoord.ok then Some(f.originCoord) else first;
    MentionHolds(airports, f.origin, f.originCoord, code, before, first);
    MentionHolds(Mention(airports, f.origin, f.originCoord), f.destination, f.destinationCoord, code, before, mid);
  }
}
