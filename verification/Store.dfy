/**
 `Store.RecordBatch` as the source runs it: collect the airports in a map, queue every statement,
 send the queue inside a transaction, commit.
 */
module HistoryStore {
  import opened Sql
  import opened FlightRow
  import opened Tables
  import opened Text
  import opened Columns

  /** How the database side of one call goes. */
  datatype Fault =
    | NoFault
    | BeginFails
    | StatementFails(at: nat)
    | CommitFails
    | AcknowledgementLost // committed, but the caller sees an error

  class Store {
    var airports: map<string, Airport>
    var flights: map<string, Row>
    var positions: seq<PositionRow>

    constructor ()
      ensures Contents() == Db(map[], map[], [])
    {
      airports, flights, positions := map[], map[], [];
    }

    function Contents(): Db
      reads this
    {
      Db(airports, flights, positions)
    }

    /**
     All or nothing: on success the tables are those of recording the messages one at a time, on
     failure they are untouched, unless only the acknowledgement was lost. No fault means success:
     the statements themselves cannot fail.
     */
    method RecordBatch(batch: seq<Arrival>, fault: Fault) returns (ok: bool)
      requires ForeignKeysHold(Contents())
      modifies this
      ensures ForeignKeysHold(Contents())
      ensures fault == NoFault || batch == [] ==> ok
      ensures fault == BeginFails || fault == CommitFails || fault == AcknowledgementLost ==> ok == (batch == [])
      ensures Contents() ==
        if ok || fault == AcknowledgementLost then RecordEach(old(Contents()), batch) else old(Contents())
      ensures ok ==> AppendsPositions(old(positions), positions, batch)
    {
      RecordingAppendsPositions(Contents(), batch);
      if batch == [] {
        return true;
      }
      if fault == BeginFails {
        return false;
      }
      var queue := BuildQueue(Contents(), batch);
      var tx := SendBatch(Contents(), queue, fault);
      if tx.None? {
        return false;
      }
      if fault == CommitFails {
        return false;
      }
      airports, flights, positions := tx.value.airports, tx.value.flights, tx.value.positions;
      ok := fault != AcknowledgementLost;
    }
  }

  /** Airports, then flights, then positions: the order the foreign keys ask for. */
  method BuildQueue(ghost db: Db, batch: seq<Arrival>) returns (queue: seq<Statement>)
    requires ForeignKeysHold(db)
    ensures EveryPrefixIsSound(db, queue)
    ensures ExecAll(db, queue) == Some(RecordEach(db, batch))
  {
    var distinct := CollectAirports(batch);
    var airportQueue, codes := QueueAirports(distinct);
    var flightQueue := QueueFlights(batch);
    var positionQueue := QueuePositions(batch);
    queue := airportQueue + flightQueue + positionQueue;
    QueueIsSoundAndSequential(db, codes, batch);
  }

  /** The batch's airports, one entry per code. */
  method CollectAirports(batch: seq<Arrival>) returns (distinct: map<string, Coord>)
    ensures distinct == Distinct(Mentions(batch))
  {
    distinct := map[];
    for i := 0 to |batch|
      invariant distinct == Distinct(Mentions(batch[..i]))
    {
      var f := batch[i].flight;
      distinct := AddAirport(distinct, f.origin, f.originCoord);
      distinct := AddAirport(distinct, f.destination, f.destinationCoord);
      assert batch[..i + 1] == batch[..i] + [batch[i]];
      DistinctGrows(batch[..i], batch[i]);
    }
    assert batch[..|batch|] == batch;
  }

  lemma DistinctGrows(before: seq<Arrival>, a: Arrival)
    ensures Distinct(Mentions(before + [a]))
         == AddAirport(AddAirport(Distinct(Mentions(before)), a.flight.origin, a.flight.originCoord),
                       a.flight.destination, a.flight.destinationCoord)
  {
    assert (before + [a])[..|before|] == before;
    DistinctOfTwoMore(Mentions(before), MentionsOf(a)[0], MentionsOf(a)[1]);
  }

  lemma DistinctOfTwoMore(ms: seq<Sighted>, o: Sighted, d: Sighted)
    ensures Distinct(ms + [o, d]) == AddAirport(AddAirport(Distinct(ms), o.code, o.coord), d.code, d.coord)
  {
    assert (ms + [o, d])[..|ms| + 1] == ms + [o] && (ms + [o])[..|ms|] == ms;
  }

  /** One upsert per code, in whatever order the map is ranged over. */
  method QueueAirports(distinct: map<string, Coord>) returns (queue: seq<Statement>, codes: seq<string>)
    ensures Enumerates(codes, distinct)
    ensures queue == AirportQueue(codes, distinct)
  {
    queue, codes := [], [];
    var left := distinct.Keys;
    while left != {}
      invariant left <= distinct.Keys
      invariant forall c :: c in codes <==> c in distinct && c !in left
      invariant forall i, j :: 0 <= i < j < |codes| ==> codes[i] != codes[j]
      invariant queue == AirportQueue(codes, distinct)
      decreases left
    {
      var code :| code in left;
      left := left - {code};
      queue := queue + [AirportUpsert(code, distinct[code])];
      codes := codes + [code];
    }
  }

  /** The flights, in message order. */
  method QueueFlights(batch: seq<Arrival>) returns (queue: seq<Statement>)
    ensures queue == FlightQueue(batch)
  {
    queue := [];
    for i := 0 to |batch|
      invariant queue == FlightQueue(batch)[..i]
    {
      var f := batch[i].flight;
      var stime := ParseTimeOr(f.timestamp, batch[i].flightClock);
      var ident := Identity(
        Nz(f.callSign), Nz(f.registration), Nz(f.aircraftType), Nz(f.origin), Nz(f.destination),
        f.departure, f.arrival);
      var statement := FlightUpsert(f.gufi, Excluded(ident, Nz(f.status), stime));
      FlightQueueAt(batch, i, statement);
      queue := queue + [statement];
    }
  }

  lemma FlightQueueAt(batch: seq<Arrival>, i: nat, statement: Statement)
    requires i < |batch| && statement == FlightStatement(batch[i])
    ensures FlightQueue(batch)[..i + 1] == FlightQueue(batch)[..i] + [statement]
  {
    var queue := FlightQueue(batch);
    assert queue[i] == statement;
    OneMoreOf(queue, i);
  }

  lemma OneMoreOf(queue: seq<Statement>, i: nat)
    requires i < |queue|
    ensures queue[..i + 1] == queue[..i] + [queue[i]]
  {
  }

  /** The positions of those flights that have one. */
  method QueuePositions(batch: seq<Arrival>) returns (queue: seq<Statement>)
    ensures queue == PositionQueue(batch)
  {
    queue := [];
    for i := 0 to |batch|
      invariant queue == PositionQueue(batch[..i])
    {
      assert batch[..i + 1][..i] == batch[..i];
      var f := batch[i].flight;
      if f.position.None? {
        continue;
      }
      var p := f.position.value;
      var stime := ParseTimeOr(f.timestamp, batch[i].positionClock);
      var ptime := ParseTimeOr(p.time, stime);
      var heading := NFloat(if p.motion.Some? then p.motion.value.heading else 0.0, p.motion.Some?);
      var speedKt := NFloat(if p.motion.Some? then p.motion.value.speedKt else 0.0, p.motion.Some?);
      var row := PositionRow(ptime, f.gufi, p.lat, p.lon, p.alt, heading, speedKt, Nz(f.status));
      queue := queue + [PositionInsert(row)];
    }
    assert batch[..|batch|] == batch;
  }

  /** Run the queue on the transaction's view; `None` is the error of the statement that failed. */
  method SendBatch(db: Db, queue: seq<Statement>, fault: Fault) returns (tx: Option<Db>)
    requires EveryPrefixIsSound(db, queue)
    ensures tx.Some? ==> tx == ExecAll(db, queue) && ForeignKeysHold(tx.value)
    ensures !fault.StatementFails? ==> tx.Some?
  {
    var view := db;
    assert queue[..0] == [];
    for i := 0 to |queue|
      invariant Some(view) == ExecAll(db, queue[..i])
    {
      assert queue[..i + 1][..i] == queue[..i];
      assert ExecAll(db, queue[..i + 1]).Some?;
      if fault == StatementFails(i) {
        return None;
      }
      view := Exec(view, queue[i]).value;
    }
    assert queue[..|queue|] == queue;
    SoundAtTheEnd(db, queue);
    tx := Some(view);
  }
}
