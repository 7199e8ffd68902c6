/**
 The cache-writer's live view: a hash per flight with an expiry, merged by HSET, dropped by DEL.
 */
module RedisView {
  import opened Sql
  import opened FlightRow
  import Tables
  import WriterRun
  import WriterExactness
  import Lifecycle

  /** The columns every upsert sets, and the two it sets only when the message has a velocity. */
  datatype Hash = Hash(
    callSign: string,
    registration: string,
    status: string,
    lat: real,
    lon: real,
    alt: string,
    altUom: string,
    positionTime: string,
    timestamp: string,
    updatedAt: int,
    motion: Option<Tables.Motion>)

  datatype Position = Position(
    lat: real, lon: real, alt: string, altUom: string, time: string, motion: Option<Tables.Motion>)

  datatype Flight = Flight(
    gufi: string,
    callSign: string,
    registration: string,
    status: string,
    timestamp: string,
    position: Option<Position>)

  datatype Stored = Stored(hash: Hash, expires: int)

  /** A key can be read until its expiry. */
  function Live(keys: map<string, Stored>, gufi: string, now: int): Option<Hash> {
    if gufi in keys && now < keys[gufi].expires then Some(keys[gufi].hash) else None
  }

  /** HSET on what is there: fields not mentioned keep their value. */
  function Merged(existing: Option<Hash>, f: Flight, now: int): Hash
    requires f.position.Some?
  {
    var p := f.position.value;
    Hash(f.callSign, f.registration, f.status, p.lat, p.lon, p.alt, p.altUom, p.time, f.timestamp, now,
         if p.motion.Some? then p.motion
         else if existing.Some? then existing.value.motion
         else None)
  }

  /** What a message asks of the cache. */
  datatype Action = Drop | Keep | Refresh

  function ActionOf(f: Flight): Action {
    if f.status != "ACTIVE" then Drop
    else if f.position.None? then Keep
    else Refresh
  }

  /** The keys after one message has been applied at time `now`. */
  function Apply(keys: map<string, Stored>, ttl: int, f: Flight, now: int): map<string, Stored> {
    match ActionOf(f)
    case Drop => keys - {f.gufi}
    case Keep => keys
    case Refresh => keys[f.gufi := Stored(Merged(Live(keys, f.gufi, now), f, now), now + ttl)]
  }

  /** A message with the moment it was applied. */
  datatype Applied = Applied(flight: Flight, at: int)

  function KeysAfter(ttl: int, history: seq<Applied>): map<string, Stored> {
    if history == [] then map[]
    else
      var last := history[|history| - 1];
      Apply(KeysAfter(ttl, history[..|history| - 1]), ttl, last.flight, last.at)
  }

  // ---------- existence ----------

  /** `history[i]` is the last message of this flight that touched the cache. */
  ghost predicate LastTouch(history: seq<Applied>, gufi: string, i: int) {
    && 0 <= i < |history| && Touches(history[i], gufi)
    && forall k :: i < k < |history| ==> !Touches(history[k], gufi)
  }

  predicate Touches(a: Applied, gufi: string) {
    a.flight.gufi == gufi && ActionOf(a.flight) != Keep
  }

  lemma LastTouchSnoc(history: seq<Applied>, gufi: string, i: int)
    requires history != []
    ensures var n := |history| - 1;
      LastTouch(history, gufi, i) <==>
        if Touches(history[n], gufi) then i == n else LastTouch(history[..n], gufi, i)
  {
    var n := |history| - 1;
    assert forall k :: 0 <= k < n ==> history[..n][k] == history[k];
  }

  ghost predicate LastTouchIsFreshUpsert(ttl: int, history: seq<Applied>, gufi: string, now: int) {
    exists i :: LastTouch(history, gufi, i) && ActionOf(history[i].flight) == Refresh && now < history[i].at + ttl
  }

  /** A key holds the expiry of the last upsert, and none is held after a drop. */
  lemma {:induction false} KeyFollowsLastTouch(ttl: int, history: seq<Applied>, gufi: string)
    ensures gufi in KeysAfter(ttl, history) <==>
      exists i :: LastTouch(history, gufi, i) && ActionOf(history[i].flight) == Refresh
    ensures forall i :: LastTouch(history, gufi, i) && ActionOf(history[i].flight) == Refresh ==>
      KeysAfter(ttl, history)[gufi].expires == history[i].at + ttl
  {
    if history != [] {
      var n := |history| - 1;
      KeyFollowsLastTouch(ttl, history[..n], gufi);
      forall i ensures LastTouch(history, gufi, i) <==>
        if Touches(history[n], gufi) then i == n else LastTouch(history[..n], gufi, i)
      {
        LastTouchSnoc(history, gufi, i);
      }
    }
  }

  /**
   At any time a flight is visible exactly when the last message that touched it, a position-carrying
   ACTIVE message or a non-ACTIVE one, was an upsert younger than the TTL.
   */
  lemma VisibleIffLastTouchIsFreshUpsert(ttl: int, history: seq<Applied>, gufi: string, now: int)
    ensures Live(KeysAfter(ttl, history), gufi, now).Some? <==> LastTouchIsFreshUpsert(ttl, history, gufi, now)
  {
    KeyFollowsLastTouch(ttl, history, gufi);
  }

  // ---------- contents ----------

  /** The fields every upsert sets. */
  function Plain(a: Applied): Hash
    requires a.flight.position.Some?
  {
    Merged(None, a.flight, a.at).(motion := None)
  }

  /** Every field an upsert sets shows the message, and the time it was applied. */
  ghost predicate ShowsMessage(h: Hash, f: Flight, at: int) {
    f.position.Some? &&
    var p := f.position.value;
    && h.callSign == f.callSign && h.registration == f.registration && h.status == f.status
    && h.lat == p.lat && h.lon == p.lon && h.alt == p.alt && h.altUom == p.altUom
    && h.positionTime == p.time && h.timestamp == f.timestamp && h.updatedAt == at
  }

  /** `history[j]` refreshed a key that had not yet expired. */
  ghost predicate Continues(ttl: int, history: seq<Applied>, gufi: string, j: nat)
    requires j < |history|
  {
    ActionOf(history[j].flight) == Refresh && LastTouchIsFreshUpsert(ttl, history[..j], gufi, history[j].at)
  }

  /** `history[m]` is the newest velocity since the key last appeared, and the key has not lapsed since. */
  ghost predicate MotionSource(ttl: int, history: seq<Applied>, gufi: string, m: nat) {
    && m < |history| && Touches(history[m], gufi) && ActionOf(history[m].flight) == Refresh
    && history[m].flight.position.value.motion.Some?
    && forall j :: m < j < |history| && Touches(history[j], gufi) ==>
         Continues(ttl, history, gufi, j) && history[j].flight.position.value.motion.None?
  }

  lemma MotionSourceSnoc(ttl: int, history: seq<Applied>, gufi: string, m: nat)
    requires |history| > 0 && m < |history| - 1
    ensures var n := |history| - 1;
      MotionSource(ttl, history, gufi, m) <==>
        && MotionSource(ttl, history[..n], gufi, m)
        && (Touches(history[n], gufi) ==>
              Continues(ttl, history, gufi, n) && history[n].flight.position.value.motion.None?)
  {
    var n := |history| - 1;
    assert forall j :: 0 <= j < n ==> history[..n][j] == history[j] && history[..n][..j] == history[..j];
  }

  /** The motion a key shows: that of its source, or none. */
  ghost predicate ShowsSource(ttl: int, history: seq<Applied>, gufi: string, shown: Option<Tables.Motion>) {
    && (forall m: nat :: MotionSource(ttl, history, gufi, m) ==> shown == history[m].flight.position.value.motion)
    && (shown.Some? ==> exists m: nat :: MotionSource(ttl, history, gufi, m))
  }

  /**
   The stored hash: plain fields are the last upsert's, heading and speed those of the newest
   upsert that had them, as long as the key never lapsed or was dropped in between.
   */
  lemma {:induction false} HashFollowsHistory(ttl: int, history: seq<Applied>, gufi: string, i: nat)
    requires LastTouch(history, gufi, i) && ActionOf(history[i].flight) == Refresh
    ensures gufi in KeysAfter(ttl, history)
    ensures KeysAfter(ttl, history)[gufi].hash.(motion := None) == Plain(history[i])
    ensures ShowsMessage(KeysAfter(ttl, history)[gufi].hash, history[i].flight, history[i].at)
    ensures ShowsSource(ttl, history, gufi, KeysAfter(ttl, history)[gufi].hash.motion)
  {
    var n := |history| - 1;
    var before := history[..n];
    LastTouchSnoc(history, gufi, i);
    if !Touches(history[n], gufi) {
      HashFollowsHistory(ttl, before, gufi, i);
      QuietMessageKeepsSource(ttl, history, gufi, KeysAfter(ttl, before)[gufi].hash.motion);
    } else {
      VisibleIffLastTouchIsFreshUpsert(ttl, before, gufi, history[n].at);
      if history[n].flight.position.value.motion.Some? {
        assert MotionSource(ttl, history, gufi, n);
        forall m: nat | MotionSource(ttl, history, gufi, m) ensures m == n {
          if m < n {
            MotionSourceSnoc(ttl, history, gufi, m);
          }
        }
      } else if Continues(ttl, history, gufi, n) {
        var p :| LastTouch(before, gufi, p) && ActionOf(before[p].flight) == Refresh;
        HashFollowsHistory(ttl, before, gufi, p);
        QuietMessageKeepsSource(ttl, history, gufi, KeysAfter(ttl, before)[gufi].hash.motion);
      } else {
        forall m: nat ensures !MotionSource(ttl, history, gufi, m) {
          if m < n {
            MotionSourceSnoc(ttl, history, gufi, m);
          }
        }
      }
    }
  }

  /** A message that neither interrupts the key nor carries a velocity leaves the source where it was. */
  lemma SourcesCarryOver(ttl: int, history: seq<Applied>, gufi: string)
    requires history != []
    requires var n := |history| - 1;
      Touches(history[n], gufi) ==>
        Continues(ttl, history, gufi, n) && history[n].flight.position.value.motion.None?
    ensures forall m: nat ::
      MotionSource(ttl, history, gufi, m) <==> MotionSource(ttl, history[..|history| - 1], gufi, m)
    ensures forall m: nat :: MotionSource(ttl, history, gufi, m) ==> m < |history| - 1
  {
    var n := |history| - 1;
    forall m: nat ensures MotionSource(ttl, history, gufi, m) <==> MotionSource(ttl, history[..n], gufi, m) {
      if m < n {
        MotionSourceSnoc(ttl, history, gufi, m);
      }
    }
  }

  lemma QuietMessageKeepsSource(ttl: int, history: seq<Applied>, gufi: string, shown: Option<Tables.Motion>)
    requires history != []
    requires var n := |history| - 1;
      Touches(history[n], gufi) ==>
        Continues(ttl, history, gufi, n) && history[n].flight.position.value.motion.None?
    requires ShowsSource(ttl, history[..|history| - 1], gufi, shown)
    ensures ShowsSource(ttl, history, gufi, shown)
  {
    SourcesCarryOver(ttl, history, gufi);
    if shown.Some? {
      var m: nat :| MotionSource(ttl, history[..|history| - 1], gufi, m);
      assert MotionSource(ttl, history, gufi, m);
    }
  }

  // ---------- agreement with the history database ----------

  /** The two services decode the same message alike. */
  predicate SameMessage(f: Flight, d: Tables.Flight) {
    f.gufi == d.gufi && f.status == d.status && d.timestamp.Some?
  }

  ghost predicate SameMessages(history: seq<Applied>, entries: seq<WriterRun.Entry>) {
    && |history| == |entries|
    && forall k :: 0 <= k < |entries| ==> entries[k].Parsed? && SameMessage(history[k].flight, entries[k].flight)
  }

  ghost predicate IsOf(e: WriterRun.Entry, gufi: string) {
    e.Parsed? && e.flight.gufi == gufi
  }

  /** What the row of a flight receives from these messages. */
  ghost function RowsIn(entries: seq<WriterRun.Entry>, gufi: string): seq<Excluded> {
    Tables.RowsOf(WriterRun.Passed(entries), gufi)
  }

  ghost function RowOf(e: WriterRun.Entry): Excluded
    requires e.Parsed?
  {
    Tables.ProposedRow(Tables.Arrival(e.flight, 0, 0))
  }

  lemma RowsGrow(before: seq<WriterRun.Entry>, e: WriterRun.Entry, gufi: string)
    requires gufi != ""
    ensures IsOf(e, gufi) ==> RowsIn(before + [e], gufi) == RowsIn(before, gufi) + [RowOf(e)]
    ensures !IsOf(e, gufi) ==> RowsIn(before + [e], gufi) == RowsIn(before, gufi)
  {
    assert (before + [e])[..|before|] == before;
    var passed := WriterRun.Passed(before);
    if e.Parsed? && e.flight.gufi != "" {
      var all := passed + [Tables.Arrival(e.flight, 0, 0)];
      assert all[..|passed|] == passed;
    }
  }

  ghost predicate EndsOn(rows: seq<Excluded>, row: Excluded) {
    rows != [] && rows[|rows| - 1] == row
  }

  /** The row of the flight's last message comes last. */
  lemma {:induction false} LastMessageIsLastRow(entries: seq<WriterRun.Entry>, gufi: string, i: nat)
    requires gufi != "" && i < |entries| && IsOf(entries[i], gufi)
    requires forall k :: i < k < |entries| ==> !IsOf(entries[k], gufi)
    ensures EndsOn(RowsIn(entries, gufi), RowOf(entries[i]))
    decreases |entries|
  {
    var n := |entries| - 1;
    var before := entries[..n];
    assert entries == before + [entries[n]];
    RowsGrow(before, entries[n], gufi);
    if i < n {
      LastMessageIsLastRow(before, gufi, i);
    }
  }

  lemma AscendingEndsOnLast(r: Option<Row>, rows: seq<Excluded>)
    requires rows != [] && Lifecycle.Ascending(rows) && Beats(rows[|rows| - 1], r)
    ensures RowAfter(r, rows).Some? && RowAfter(r, rows).value.status == rows[|rows| - 1].status
  {
    assert IsLatest(rows, |rows| - 1);
    WriterExactness.TieEndsOnLast(r, rows, |rows| - 1);
  }

  /** A flight whose messages arrive in timestamp order has the status of the last one. */
  lemma OrderedArrivalEndsOnLast(arrivals: seq<Tables.Arrival>, gufi: string, rows: seq<Excluded>)
    requires rows == Tables.RowsOf(arrivals, gufi) && rows != [] && Lifecycle.Ascending(rows)
    ensures var table := Tables.RecordEach(WriterExactness.EMPTY, arrivals).flights;
      gufi in table && table[gufi].status == rows[|rows| - 1].status
  {
    AscendingEndsOnLast(None, rows);
    Tables.FlightsAreIndependent(WriterExactness.EMPTY, arrivals, gufi);
  }

  lemma {:induction false} LastMessageExists(history: seq<Applied>, gufi: string, i: nat) returns (k: nat)
    requires i < |history| && history[i].flight.gufi == gufi
    ensures i <= k < |history| && history[k].flight.gufi == gufi
    ensures forall j :: k < j < |history| ==> history[j].flight.gufi != gufi
  {
    var n := |history| - 1;
    if history[n].flight.gufi == gufi {
      k := n;
    } else {
      k := LastMessageExists(history[..n], gufi, i);
      forall j | k < j < |history| ensures history[j].flight.gufi != gufi {
        assert j < n ==> history[..n][j] == history[j];
      }
    }
  }

  /** The last message of a visible flight is ACTIVE: it refreshed the key or left it alone. */
  lemma LastMessageOfVisibleFlight(ttl: int, history: seq<Applied>, gufi: string, now: int) returns (k: nat)
    requires Live(KeysAfter(ttl, history), gufi, now).Some?
    ensures k < |history| && history[k].flight.gufi == gufi && history[k].flight.status == "ACTIVE"
    ensures forall j :: k < j < |history| ==> history[j].flight.gufi != gufi
  {
    VisibleIffLastTouchIsFreshUpsert(ttl, history, gufi, now);
    var i :| LastTouch(history, gufi, i) && ActionOf(history[i].flight) == Refresh;
    k := LastMessageExists(history, gufi, i);
    assert k > i ==> !Touches(history[k], gufi);
  }

  /**
   If a flight's messages arrive in timestamp order and both writers have applied the same prefix,
   a flight visible on the live map is ACTIVE in the database.
   */
  lemma VisibleFlightIsActiveInDatabase(
    ttl: int, history: seq<Applied>, entries: seq<WriterRun.Entry>, gufi: string, now: int)
    requires SameMessages(history, entries) && gufi != ""
    requires Lifecycle.Ascending(RowsIn(entries, gufi))
    requires Live(KeysAfter(ttl, history), gufi, now).Some?
    ensures var rows := Tables.RecordEach(WriterExactness.EMPTY, WriterRun.Passed(entries)).flights;
      gufi in rows && rows[gufi].status == ACTIVE
  {
    var k := LastMessageOfVisibleFlight(ttl, history, gufi, now);
    assert SameMessage(history[k].flight, entries[k].flight);
    forall j | k < j < |entries| ensures !IsOf(entries[j], gufi) {
      assert SameMessage(history[j].flight, entries[j].flight);
    }
    LastMessageDecides(entries, gufi, k);
  }

  lemma ActiveRow(e: WriterRun.Entry)
    requires e.Parsed? && e.flight.status == "ACTIVE"
    ensures RowOf(e).status == ACTIVE
  {
    Lifecycle.NzIsExact("ACTIVE");
  }

  /** With ordered arrival the database has the status of the flight's last message. */
  lemma LastMessageDecides(entries: seq<WriterRun.Entry>, gufi: string, k: nat)
    requires gufi != "" && k < |entries| && IsOf(entries[k], gufi) && entries[k].flight.status == "ACTIVE"
    requires forall j :: k < j < |entries| ==> !IsOf(entries[j], gufi)
    requires Lifecycle.Ascending(RowsIn(entries, gufi))
    ensures var rows := Tables.RecordEach(WriterExactness.EMPTY, WriterRun.Passed(entries)).flights;
      gufi in rows && rows[gufi].status == ACTIVE
  {
    LastMessageIsLastRow(entries, gufi, k);
    ActiveRow(entries[k]);
    OrderedArrivalEndsOnLast(WriterRun.Passed(entries), gufi, RowsIn(entries, gufi));
  }
}
