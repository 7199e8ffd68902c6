/**
 The three tables of the history database and `RecordBatch`, which queues a batch's statements
 as airports, then flights, then positions, and runs them in one transaction.
 */
module Tables {
  import opened Sql
  import opened Text
  import opened FlightRow
  import opened Sequences

  datatype Coord = Coord(lat: real, lon: real, ok: bool)

  datatype Motion = Motion(heading: real, speedKt: real)

  /** `time`, like the other instants below, is the outcome of parsing the feed's string. */
  datatype Position = Position(lat: real, lon: real, alt: Option<real>, motion: Option<Motion>, time: Option<int>)

  datatype Flight = Flight(
    gufi: string,
    callSign: string,
    registration: string,
    aircraftType: string,
    origin: string,
    destination: string,
    status: string,
    timestamp: Option<int>,
    departure: Option<int>,
    arrival: Option<int>,
    originCoord: Coord,
    destinationCoord: Coord,
    position: Option<Position>)

  /** A flight with the two clock readings `RecordBatch` takes for it as fallback timestamps. */
  datatype Arrival = Arrival(flight: Flight, flightClock: int, positionClock: int)

  datatype Airport = Airport(lat: Option<real>, lon: Option<real>)

  datatype PositionRow = PositionRow(
    time: int,
    gufi: string,
    lat: real,
    lon: real,
    alt: Option<real>,
    heading: Option<real>,
    speedKt: Option<real>,
    status: Option<string>)

  datatype Db = Db(airports: map<string, Airport>, flights: map<string, Row>, positions: seq<PositionRow>)

  function Lookup<T>(m: map<string, T>, key: string): Option<T> {
    if key in m then Some(m[key]) else None
  }

  // ---------- what the statements carry ----------

  function NFloat(v: real, ok: bool): Option<real> {
    if ok then Some(v) else None
  }

  function ParseTimeOr(parsed: Option<int>, fallback: int): int {
    if parsed.Some? then parsed.value else fallback
  }

  function ProposedRow(a: Arrival): Excluded {
    var f := a.flight;
    Excluded(
      Identity(Nz(f.callSign), Nz(f.registration), Nz(f.aircraftType), Nz(f.origin), Nz(f.destination),
               f.departure, f.arrival),
      Nz(f.status),
      ParseTimeOr(f.timestamp, a.flightClock))
  }

  function PositionRowOf(a: Arrival): PositionRow
    requires a.flight.position.Some?
  {
    var f, p := a.flight, a.flight.position.value;
    var stime := ParseTimeOr(f.timestamp, a.positionClock);
    PositionRow(
      ParseTimeOr(p.time, stime), f.gufi, p.lat, p.lon, p.alt,
      if p.motion.Some? then Some(p.motion.value.heading) else None,
      if p.motion.Some? then Some(p.motion.value.speedKt) else None,
      Nz(f.status))
  }

  /** `upsertAirportSQL` on one row. */
  function UpsertAirport(existing: Option<Airport>, c: Coord): Airport {
    var lat, lon := NFloat(c.lat, c.ok), NFloat(c.lon, c.ok);
    if existing.None? then Airport(lat, lon)
    else Airport(Coalesce(existing.value.lat, lat), Coalesce(existing.value.lon, lon))
  }

  // ---------- the reference: one message at a time ----------

  function Mention(airports: map<string, Airport>, code: string, c: Coord): map<string, Airport> {
    if code == "" then airports else airports[code := UpsertAirport(Lookup(airports, code), c)]
  }

  function RecordOne(db: Db, a: Arrival): Db {
    var f := a.flight;
    Db(
      Mention(Mention(db.airports, f.origin, f.originCoord), f.destination, f.destinationCoord),
      db.flights[f.gufi := Upsert(Lookup(db.flights, f.gufi), ProposedRow(a))],
      if f.position.Some? then db.positions + [PositionRowOf(a)] else db.positions)
  }

  function RecordEach(db: Db, batch: seq<Arrival>): Db {
    if batch == [] then db else RecordOne(RecordEach(db, batch[..|batch| - 1]), batch[|batch| - 1])
  }

  lemma {:induction false} RecordEachConcat(db: Db, a: seq<Arrival>, b: seq<Arrival>)
    ensures RecordEach(db, a + b) == RecordEach(RecordEach(db, a), b)
  {
    if b == [] {
      assert a + b == a;
    } else {
      assert (a + b)[..|a + b| - 1] == a + b[..|b| - 1];
      RecordEachConcat(db, a, b[..|b| - 1]);
    }
  }

  /** The messages of one flight, as the statements it receives. */
  function RowsOf(batch: seq<Arrival>, gufi: string): seq<Excluded> {
    if batch == [] then []
    else
      var before, a := RowsOf(batch[..|batch| - 1], gufi), batch[|batch| - 1];
      if a.flight.gufi == gufi then before + [ProposedRow(a)] else before
  }

  /** Each row of `flights` depends only on its own flight's messages. */
  lemma {:induction false} FlightsAreIndependent(db: Db, batch: seq<Arrival>, gufi: string)
    ensures Lookup(RecordEach(db, batch).flights, gufi) == RowAfter(Lookup(db.flights, gufi), RowsOf(batch, gufi))
  {
    if batch != [] {
      var n := |batch| - 1;
      FlightsAreIndependent(db, batch[..n], gufi);
      RowAfterOne(Lookup(db.flights, gufi), RowsOf(batch[..n], gufi), ProposedRow(batch[n]));
    }
  }

  // ---------- the airports of a batch ----------

  datatype Sighted = Sighted(code: string, coord: Coord)

  function MentionsOf(a: Arrival): seq<Sighted> {
    [Sighted(a.flight.origin, a.flight.originCoord), Sighted(a.flight.destination, a.flight.destinationCoord)]
  }

  function Mentions(batch: seq<Arrival>): seq<Sighted> {
    if batch == [] then [] else Mentions(batch[..|batch| - 1]) + MentionsOf(batch[|batch| - 1])
  }

  function MentionAll(airports: map<string, Airport>, ms: seq<Sighted>): map<string, Airport> {
    if ms == [] then airports
    else Mention(MentionAll(airports, ms[..|ms| - 1]), ms[|ms| - 1].code, ms[|ms| - 1].coord)
  }

  /** `addAirport`: one entry per code, preferring one that carries coordinates. */
  function AddAirport(m: map<string, Coord>, code: string, c: Coord): map<string, Coord> {
    if code == "" then m
    else if code in m then (if !m[code].ok && c.ok then m[code := c] else m)
    else m[code := c]
  }

  function Distinct(ms: seq<Sighted>): map<string, Coord> {
    if ms == [] then map[]
    else AddAirport(Distinct(ms[..|ms| - 1]), ms[|ms| - 1].code, ms[|ms| - 1].coord)
  }

  /** Upserting each code once, with its preferred coordinates, equals upserting every mention. */
  lemma {:induction false} DistinctStandsForAll(airports: map<string, Airport>, ms: seq<Sighted>, code: string)
    ensures code in Distinct(ms) <==> code != "" && exists i :: 0 <= i < |ms| && ms[i].code == code
    ensures Lookup(MentionAll(airports, ms), code) ==
      if code in Distinct(ms) then Some(UpsertAirport(Lookup(airports, code), Distinct(ms)[code]))
      else Lookup(airports, code)
  {
    if ms != [] {
      var n := |ms| - 1;
      DistinctStandsForAll(airports, ms[..n], code);
      assert forall i :: 0 <= i < n ==> ms[..n][i] == ms[i];
      if code != "" && exists i :: 0 <= i < |ms| && ms[i].code == code {
        var i :| 0 <= i < |ms| && ms[i].code == code;
        assert i < n ==> ms[..n][i].code == code;
      }
    }
  }

  function PositionsOf(batch: seq<Arrival>): seq<PositionRow> {
    if batch == [] then []
    else
      var before, a := PositionsOf(batch[..|batch| - 1]), batch[|batch| - 1];
      if a.flight.position.Some? then before + [PositionRowOf(a)] else before
  }

  function FlightsAfter(flights: map<string, Row>, batch: seq<Arrival>): map<string, Row> {
    if batch == [] then flights
    else
      var before, a := FlightsAfter(flights, batch[..|batch| - 1]), batch[|batch| - 1];
      before[a.flight.gufi := Upsert(Lookup(before, a.flight.gufi), ProposedRow(a))]
  }

  lemma MentionTwo(airports: map<string, Airport>, ms: seq<Sighted>, o: Sighted, d: Sighted)
    ensures MentionAll(airports, ms + [o, d])
         == Mention(Mention(MentionAll(airports, ms), o.code, o.coord), d.code, d.coord)
  {
    assert (ms + [o, d])[..|ms| + 1] == ms + [o] && (ms + [o])[..|ms|] == ms;
  }

  lemma MentionsGrow(airports: map<string, Airport>, before: seq<Arrival>, a: Arrival)
    ensures MentionAll(airports, Mentions(before + [a]))
         == Mention(Mention(MentionAll(airports, Mentions(before)), a.flight.origin, a.flight.originCoord),
                    a.flight.destination, a.flight.destinationCoord)
  {
    assert (before + [a])[..|before|] == before;
    MentionTwo(airports, Mentions(before), MentionsOf(a)[0], MentionsOf(a)[1]);
  }

  lemma FlightsGrow(flights: map<string, Row>, before: seq<Arrival>, a: Arrival)
    ensures var was := FlightsAfter(flights, before);
      FlightsAfter(flights, before + [a]) == was[a.flight.gufi := Upsert(Lookup(was, a.flight.gufi), ProposedRow(a))]
  {
    assert (before + [a])[..|before|] == before;
  }

  lemma PositionsGrow(before: seq<Arrival>, a: Arrival)
    ensures PositionsOf(before + [a])
         == PositionsOf(before) + if a.flight.position.Some? then [PositionRowOf(a)] else []
  {
    assert (before + [a])[..|before|] == before;
  }

  lemma RecordEachGrows(db: Db, before: seq<Arrival>, a: Arrival)
    ensures RecordEach(db, before + [a]) == RecordOne(RecordEach(db, before), a)
  {
    assert (before + [a])[..|before|] == before;
  }

  /** What the tables hold, one function per table. */
  function ByTable(db: Db, batch: seq<Arrival>): Db {
    Db(MentionAll(db.airports, Mentions(batch)), FlightsAfter(db.flights, batch), db.positions + PositionsOf(batch))
  }

  lemma ByTableGrows(db: Db, before: seq<Arrival>, a: Arrival)
    ensures ByTable(db, before + [a]) == RecordOne(ByTable(db, before), a)
  {
    MentionsGrow(db.airports, before, a);
    FlightsGrow(db.flights, before, a);
    PositionsGrow(before, a);
    PositionsAppend(db.positions, PositionsOf(before), PositionsOf(before + [a]), a);
  }

  lemma PositionsAppend(stored: seq<PositionRow>, before: seq<PositionRow>, after: seq<PositionRow>, a: Arrival)
    requires after == before + if a.flight.position.Some? then [PositionRowOf(a)] else []
    ensures stored + after
         == if a.flight.position.Some? then (stored + before) + [PositionRowOf(a)] else stored + before
  {
  }

  /** One message at a time, seen table by table. */
  lemma {:induction false} RecordEachByTable(db: Db, batch: seq<Arrival>)
    ensures RecordEach(db, batch) == ByTable(db, batch)
  {
    if batch == [] {
      assert db.positions + [] == db.positions;
    } else {
      var before, a := batch[..|batch| - 1], batch[|batch| - 1];
      assert batch == before + [a];
      RecordEachByTable(db, before);
      RecordEachGrows(db, before, a);
      ByTableGrows(db, before, a);
    }
  }

  // ---------- statements and foreign keys ----------

  datatype Statement =
    | AirportUpsert(code: string, coord: Coord)
    | FlightUpsert(gufi: string, proposed: Excluded)
    | PositionInsert(row: PositionRow)

  predicate KnownAirport(airports: map<string, Airport>, code: Option<string>) {
    code.Some? ==> code.value in airports
  }

  predicate RowRefersToAirports(airports: map<string, Airport>, r: Row) {
    KnownAirport(airports, r.ident.origin) && KnownAirport(airports, r.ident.destination)
  }

  /** Both foreign keys: flights to airports and positions to flights. */
  ghost predicate ForeignKeysHold(db: Db) {
    && (forall g :: g in db.flights ==> RowRefersToAirports(db.airports, db.flights[g]))
    && (forall p :: p in db.positions ==> p.gufi in db.flights)
  }

  /** One statement; `None` is a foreign key violation. */
  function Exec(db: Db, s: Statement): Option<Db> {
    match s
    case AirportUpsert(code, c) =>
      Some(db.(airports := db.airports[code := UpsertAirport(Lookup(db.airports, code), c)]))
    case FlightUpsert(gufi, e) =>
      var row := Upsert(Lookup(db.flights, gufi), e);
      if RowRefersToAirports(db.airports, row) then Some(db.(flights := db.flights[gufi := row])) else None
    case PositionInsert(row) =>
      if row.gufi in db.flights then Some(db.(positions := db.positions + [row])) else None
  }

  /** The tables a statement leaves if nothing checks the keys. */
  function Unchecked(db: Db, s: Statement): Db {
    match s
    case AirportUpsert(code, c) => db.(airports := db.airports[code := UpsertAirport(Lookup(db.airports, code), c)])
    case FlightUpsert(gufi, e) => db.(flights := db.flights[gufi := Upsert(Lookup(db.flights, gufi), e)])
    case PositionInsert(row) => db.(positions := db.positions + [row])
  }

  /** A statement is refused exactly when it would break a foreign key. */
  lemma RefusedExactlyWhenBroken(db: Db, s: Statement)
    requires ForeignKeysHold(db)
    ensures Exec(db, s) == if ForeignKeysHold(Unchecked(db, s)) then Some(Unchecked(db, s)) else None
  {
    var after := Unchecked(db, s);
    match s
    case AirportUpsert(code, _) =>
      forall g | g in after.flights ensures RowRefersToAirports(after.airports, after.flights[g]) {
        assert RowRefersToAirports(db.airports, db.flights[g]);
      }
    case FlightUpsert(gufi, e) =>
      assert gufi in after.flights;
      forall g | g in after.flights && g != gufi ensures RowRefersToAirports(after.airports, after.flights[g]) {
        assert RowRefersToAirports(db.airports, db.flights[g]);
      }
    case PositionInsert(row) =>
      assert row in after.positions;
  }

  function ExecAll(db: Db, queue: seq<Statement>): Option<Db> {
    if queue == [] then Some(db)
    else
      var before := ExecAll(db, queue[..|queue| - 1]);
      if before.None? then None else Exec(before.value, queue[|queue| - 1])
  }

  lemma {:induction false} ExecAllConcat(db: Db, a: seq<Statement>, b: seq<Statement>)
    ensures ExecAll(db, a + b) == (if ExecAll(db, a).None? then None else ExecAll(ExecAll(db, a).value, b))
  {
    if b == [] {
      assert a + b == a;
    } else {
      assert (a + b)[..|a + b| - 1] == a + b[..|b| - 1];
      ExecAllConcat(db, a, b[..|b| - 1]);
    }
  }

  function AirportQueue(codes: seq<string>, airports: map<string, Coord>): seq<Statement>
    requires forall c :: c in codes ==> c in airports
  {
    seq(|codes|, i requires 0 <= i < |codes| => AirportUpsert(codes[i], airports[codes[i]]))
  }

  function FlightQueue(batch: seq<Arrival>): seq<Statement> {
    seq(|batch|, i requires 0 <= i < |batch| => FlightStatement(batch[i]))
  }

  function PositionQueue(batch: seq<Arrival>): seq<Statement> {
    var ps := PositionsOf(batch);
    seq(|ps|, i requires 0 <= i < |ps| => PositionInsert(ps[i]))
  }

  /** A map range visits every key once, in an order of its own choosing. */
  ghost predicate Enumerates(codes: seq<string>, airports: map<string, Coord>) {
    && (forall c :: c in codes <==> c in airports)
    && (forall i, j :: 0 <= i < j < |codes| ==> codes[i] != codes[j])
  }

  ghost function Queue(codes: seq<string>, batch: seq<Arrival>): seq<Statement>
    requires Enumerates(codes, Distinct(Mentions(batch)))
  {
    AirportQueue(codes, Distinct(Mentions(batch))) + FlightQueue(batch) + PositionQueue(batch)
  }

  /** Every prefix of the queue runs and leaves both foreign keys intact. */
  ghost predicate EveryPrefixIsSound(db: Db, queue: seq<Statement>) {
    forall n :: 0 <= n <= |queue| ==>
      ExecAll(db, queue[..n]).Some? && ForeignKeysHold(ExecAll(db, queue[..n]).value)
  }

  lemma SoundConcat(db: Db, a: seq<Statement>, b: seq<Statement>)
    requires EveryPrefixIsSound(db, a)
    requires ExecAll(db, a).Some? && EveryPrefixIsSound(ExecAll(db, a).value, b)
    ensures EveryPrefixIsSound(db, a + b)
  {
    forall n | 0 <= n <= |a + b|
      ensures ExecAll(db, (a + b)[..n]).Some? && ForeignKeysHold(ExecAll(db, (a + b)[..n]).value)
    {
      if n <= |a| {
        assert (a + b)[..n] == a[..n];
      } else {
        assert (a + b)[..n] == a + b[..n - |a|];
        ExecAllConcat(db, a, b[..n - |a|]);
      }
    }
  }

  lemma SoundSnoc(db: Db, queue: seq<Statement>)
    requires queue != [] && EveryPrefixIsSound(db, queue[..|queue| - 1])
    requires ExecAll(db, queue).Some? && ForeignKeysHold(ExecAll(db, queue).value)
    ensures EveryPrefixIsSound(db, queue)
  {
    var m := |queue| - 1;
    forall n | 0 <= n <= |queue|
      ensures ExecAll(db, queue[..n]).Some? && ForeignKeysHold(ExecAll(db, queue[..n]).value)
    {
      if n <= m {
        assert queue[..n] == queue[..m][..n];
      } else {
        assert queue[..n] == queue;
      }
    }
  }

  lemma {:induction false} AirportsRun(db: Db, codes: seq<string>, airports: map<string, Coord>)
    requires forall c :: c in codes ==> c in airports
    requires forall i, j :: 0 <= i < j < |codes| ==> codes[i] != codes[j]
    requires ForeignKeysHold(db)
    ensures EveryPrefixIsSound(db, AirportQueue(codes, airports))
    ensures ExecAll(db, AirportQueue(codes, airports)).Some?
    ensures var after := ExecAll(db, AirportQueue(codes, airports)).value;
      && after.flights == db.flights && after.positions == db.positions
      && (forall c :: Lookup(after.airports, c) ==
                      if c in codes then Some(UpsertAirport(Lookup(db.airports, c), airports[c]))
                      else Lookup(db.airports, c))
  {
    var queue := AirportQueue(codes, airports);
    if codes == [] {
      assert queue == [];
    } else {
      var n := |codes| - 1;
      var before := codes[..n];
      assert codes == before + [codes[n]];
      assert queue[..n] == AirportQueue(before, airports);
      AirportsRun(db, before, airports);
      SoundSnoc(db, queue);
    }
  }

  lemma {:induction false} FlightsAreCreated(flights: map<string, Row>, batch: seq<Arrival>, gufi: string)
    requires gufi in flights || exists k :: 0 <= k < |batch| && batch[k].flight.gufi == gufi
    ensures gufi in FlightsAfter(flights, batch)
  {
    if batch != [] {
      var n := |batch| - 1;
      if batch[n].flight.gufi != gufi {
        assert gufi !in flights ==> exists k :: 0 <= k < n && batch[..n][k].flight.gufi == gufi;
        FlightsAreCreated(flights, batch[..n], gufi);
      }
    }
  }

  /** A flight whose airports exist can be upserted, and both keys still hold. */
  lemma FlightUpsertIsSound(db: Db, gufi: string, e: Excluded)
    requires ForeignKeysHold(db)
    requires KnownAirport(db.airports, e.ident.origin) && KnownAirport(db.airports, e.ident.destination)
    ensures Exec(db, FlightUpsert(gufi, e))
         == Some(db.(flights := db.flights[gufi := Upsert(Lookup(db.flights, gufi), e)]))
    ensures ForeignKeysHold(Exec(db, FlightUpsert(gufi, e)).value)
  {
    var row := Upsert(Lookup(db.flights, gufi), e);
    assert RowRefersToAirports(db.airports, row) by {
      if gufi in db.flights {
        assert RowRefersToAirports(db.airports, db.flights[gufi]);
      }
    }
  }

  lemma ExecOneMore(db: Db, queue: seq<Statement>, s: Statement, mid: Db)
    requires EveryPrefixIsSound(db, queue) && ExecAll(db, queue) == Some(mid)
    requires Exec(mid, s).Some? && ForeignKeysHold(Exec(mid, s).value)
    ensures ExecAll(db, queue + [s]) == Exec(mid, s)
    ensures EveryPrefixIsSound(db, queue + [s])
  {
    assert (queue + [s])[..|queue|] == queue;
    SoundSnoc(db, queue + [s]);
  }

  lemma SoundAtTheEnd(db: Db, queue: seq<Statement>)
    requires EveryPrefixIsSound(db, queue)
    ensures ExecAll(db, queue).Some? && ForeignKeysHold(ExecAll(db, queue).value)
  {
    assert queue[..|queue|] == queue;
  }

  function FlightStatement(a: Arrival): Statement {
    FlightUpsert(a.flight.gufi, ProposedRow(a))
  }

  predicate AirportsKnown(airports: map<string, Airport>, a: Arrival) {
    KnownAirport(airports, Nz(a.flight.origin)) && KnownAirport(airports, Nz(a.flight.destination))
  }

  lemma {:induction false} FlightsRun(db: Db, batch: seq<Arrival>)
    requires ForeignKeysHold(db)
    requires forall k :: 0 <= k < |batch| ==> AirportsKnown(db.airports, batch[k])
    ensures EveryPrefixIsSound(db, FlightQueue(batch))
    ensures ExecAll(db, FlightQueue(batch)) == Some(db.(flights := FlightsAfter(db.flights, batch)))
  {
    if batch == [] {
      assert FlightQueue(batch) == [];
    } else {
      var before, a := batch[..|batch| - 1], batch[|batch| - 1];
      assert batch == before + [a];
      FlightsRun(db, before);
      FlightRunsAfter(db, before, a);
    }
  }

  lemma FlightQueueGrows(before: seq<Arrival>, a: Arrival)
    ensures FlightQueue(before + [a]) == FlightQueue(before) + [FlightStatement(a)]
  {
  }

  lemma FlightRunsAfter(db: Db, before: seq<Arrival>, a: Arrival)
    requires AirportsKnown(db.airports, a)
    requires EveryPrefixIsSound(db, FlightQueue(before))
    requires ExecAll(db, FlightQueue(before)) == Some(db.(flights := FlightsAfter(db.flights, before)))
    ensures EveryPrefixIsSound(db, FlightQueue(before + [a]))
    ensures ExecAll(db, FlightQueue(before + [a])) == Some(db.(flights := FlightsAfter(db.flights, before + [a])))
  {
    var queue, mid := FlightQueue(before), db.(flights := FlightsAfter(db.flights, before));
    FlightQueueGrows(before, a);
    SoundAtTheEnd(db, queue);
    FlightUpsertIsSound(mid, a.flight.gufi, ProposedRow(a));
    ExecOneMore(db, queue, FlightStatement(a), mid);
    FlightsGrow(db.flights, before, a);
  }

  lemma {:induction false} PositionsRun(db: Db, ps: seq<PositionRow>, queue: seq<Statement>)
    requires ForeignKeysHold(db)
    requires forall p :: p in ps ==> p.gufi in db.flights
    requires |queue| == |ps| && forall i :: 0 <= i < |ps| ==> queue[i] == PositionInsert(ps[i])
    ensures EveryPrefixIsSound(db, queue)
    ensures ExecAll(db, queue) == Some(db.(positions := db.positions + ps))
  {
    if ps == [] {
      assert db.positions + ps == db.positions;
    } else {
      var n := |ps| - 1;
      PositionsRun(db, ps[..n], queue[..n]);
      assert ps == ps[..n] + [ps[n]];
      assert db.positions + ps == (db.positions + ps[..n]) + [ps[n]];
      assert ps[n] in ps;
      SoundSnoc(db, queue);
    }
  }

  lemma {:induction false} PositionsBelongToBatch(batch: seq<Arrival>, p: PositionRow)
    requires p in PositionsOf(batch)
    ensures exists k :: 0 <= k < |batch| && batch[k].flight.gufi == p.gufi
  {
    var n := |batch| - 1;
    if p in PositionsOf(batch[..n]) {
      PositionsBelongToBatch(batch[..n], p);
      var k :| 0 <= k < n && batch[..n][k].flight.gufi == p.gufi;
      assert batch[k].flight.gufi == p.gufi;
    } else {
      assert batch[n].flight.gufi == p.gufi;
    }
  }

  lemma {:induction false} MentionsCover(batch: seq<Arrival>, k: nat)
    requires k < |batch|
    ensures Sighted(batch[k].flight.origin, batch[k].flight.originCoord) in Mentions(batch)
    ensures Sighted(batch[k].flight.destination, batch[k].flight.destinationCoord) in Mentions(batch)
  {
    var n := |batch| - 1;
    var last := MentionsOf(batch[n]);
    if k < n {
      MentionsCover(batch[..n], k);
    } else {
      assert last[0] in last && last[1] in last;
    }
  }

  lemma EveryReferredAirportIsQueued(batch: seq<Arrival>, k: nat)
    requires k < |batch|
    ensures Nz(batch[k].flight.origin).Some? ==> batch[k].flight.origin in Distinct(Mentions(batch))
    ensures Nz(batch[k].flight.destination).Some? ==> batch[k].flight.destination in Distinct(Mentions(batch))
  {
    MentionsCover(batch, k);
    DistinctStandsForAll(map[], Mentions(batch), batch[k].flight.origin);
    DistinctStandsForAll(map[], Mentions(batch), batch[k].flight.destination);
  }

  lemma MapsAgree<T>(a: map<string, T>, b: map<string, T>)
    requires forall key :: Lookup(a, key) == Lookup(b, key)
    ensures a == b
  {
    forall key ensures key in a <==> key in b {
      assert Lookup(a, key) == Lookup(b, key);
    }
    forall key | key in a ensures a[key] == b[key] {
      assert Lookup(a, key) == Lookup(b, key);
    }
  }

  /** The first third of the queue brings every airport of the batch up to date. */
  lemma AirportsOfBatchRun(db: Db, codes: seq<string>, ms: seq<Sighted>)
    requires ForeignKeysHold(db)
    requires Enumerates(codes, Distinct(ms))
    ensures EveryPrefixIsSound(db, AirportQueue(codes, Distinct(ms)))
    ensures ExecAll(db, AirportQueue(codes, Distinct(ms))) == Some(db.(airports := MentionAll(db.airports, ms)))
  {
    AirportsRun(db, codes, Distinct(ms));
    var after := ExecAll(db, AirportQueue(codes, Distinct(ms))).value;
    forall c ensures Lookup(after.airports, c) == Lookup(MentionAll(db.airports, ms), c) {
      DistinctStandsForAll(db.airports, ms, c);
    }
    MapsAgree(after.airports, MentionAll(db.airports, ms));
  }

  lemma BatchAirportsAreKnown(airports: map<string, Airport>, batch: seq<Arrival>, k: nat)
    requires k < |batch|
    ensures AirportsKnown(MentionAll(airports, Mentions(batch)), batch[k])
  {
    EveryReferredAirportIsQueued(batch, k);
    DistinctStandsForAll(airports, Mentions(batch), batch[k].flight.origin);
    DistinctStandsForAll(airports, Mentions(batch), batch[k].flight.destination);
  }

  lemma BatchFlightsExist(flights: map<string, Row>, batch: seq<Arrival>)
    ensures forall p :: p in PositionsOf(batch) ==> p.gufi in FlightsAfter(flights, batch)
  {
    forall p | p in PositionsOf(batch) ensures p.gufi in FlightsAfter(flights, batch) {
      PositionsBelongToBatch(batch, p);
      FlightsAreCreated(flights, batch, p.gufi);
    }
  }

  lemma OneAfterTheOther(db: Db, a: seq<Statement>, b: seq<Statement>, mid: Db)
    requires EveryPrefixIsSound(db, a) && ExecAll(db, a) == Some(mid)
    requires EveryPrefixIsSound(mid, b)
    ensures EveryPrefixIsSound(db, a + b)
    ensures ExecAll(db, a + b) == ExecAll(mid, b)
  {
    SoundConcat(db, a, b);
    ExecAllConcat(db, a, b);
  }

  lemma FlightsAndPositionsRun(db: Db, batch: seq<Arrival>)
    requires ForeignKeysHold(db)
    requires forall k :: 0 <= k < |batch| ==> AirportsKnown(db.airports, batch[k])
    ensures EveryPrefixIsSound(db, FlightQueue(batch) + PositionQueue(batch))
    ensures ExecAll(db, FlightQueue(batch) + PositionQueue(batch))
         == Some(Db(db.airports, FlightsAfter(db.flights, batch), db.positions + PositionsOf(batch)))
  {
    FlightsRun(db, batch);
    SoundAtTheEnd(db, FlightQueue(batch));
    var withFlights := db.(flights := FlightsAfter(db.flights, batch));
    BatchFlightsExist(db.flights, batch);
    PositionsRun(withFlights, PositionsOf(batch), PositionQueue(batch));
    OneAfterTheOther(db, FlightQueue(batch), PositionQueue(batch), withFlights);
  }

  lemma RestOfBatchRuns(db: Db, withAirports: Db, batch: seq<Arrival>)
    requires withAirports == db.(airports := MentionAll(db.airports, Mentions(batch)))
    requires ForeignKeysHold(withAirports)
    ensures EveryPrefixIsSound(withAirports, FlightQueue(batch) + PositionQueue(batch))
    ensures ExecAll(withAirports, FlightQueue(batch) + PositionQueue(batch)) == Some(ByTable(db, batch))
  {
    forall k | 0 <= k < |batch| ensures AirportsKnown(withAirports.airports, batch[k]) {
      BatchAirportsAreKnown(db.airports, batch, k);
    }
    FlightsAndPositionsRun(withAirports, batch);
  }

  /**
   Whatever order the airports come in, the queued batch never violates a foreign key, not even
   half way, and leaves the tables of a run that records its messages one at a time.
   */
  lemma QueueIsSoundAndSequential(db: Db, codes: seq<string>, batch: seq<Arrival>)
    requires ForeignKeysHold(db)
    requires Enumerates(codes, Distinct(Mentions(batch)))
    ensures EveryPrefixIsSound(db, Queue(codes, batch))
    ensures ExecAll(db, Queue(codes, batch)) == Some(RecordEach(db, batch))
  {
    var ms := Mentions(batch);
    var airportQueue, rest := AirportQueue(codes, Distinct(ms)), FlightQueue(batch) + PositionQueue(batch);
    AirportsOfBatchRun(db, codes, ms);
    SoundAtTheEnd(db, airportQueue);
    var withAirports := db.(airports := MentionAll(db.airports, ms));
    RestOfBatchRuns(db, withAirports, batch);
    OneAfterTheOther(db, airportQueue, rest, withAirports);
    Reassociate(airportQueue, FlightQueue(batch), PositionQueue(batch));
    RecordEachByTable(db, batch);
  }
}
