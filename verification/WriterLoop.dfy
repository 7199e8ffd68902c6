/**
 One turn of the database-writer's loop as the source runs it: sort the batch into flights, poison
 and skipped messages, then write until the store reports success.
 */
module WriterLoop {
  import opened Tables
  import opened HistoryStore
  import opened WriterRun

  datatype Counts = Counts(messages: nat, parseErrors: nat, skipped: nat)

  ghost predicate Increasing(ks: seq<nat>) {
    forall i, j :: 0 <= i < j < |ks| ==> ks[i] < ks[j]
  }

  lemma StaysIncreasing(ks: seq<nat>, i: nat)
    requires Increasing(ks) && forall k :: k in ks ==> k < i
    ensures Increasing(ks + [i])
  {
    assert forall j :: 0 <= j < |ks| ==> ks[j] in ks;
  }

  /**
   Every message is recorded, poison or skipped, and the flights keep their order. Poison is
   dead-lettered if that publication succeeds (`reaches`) and is lost otherwise.
   */
  method ParseBatch(batch: seq<Entry>, reaches: nat -> bool)
    returns (flights: seq<Arrival>, deadLettered: seq<nat>, lost: seq<nat>, counts: Counts)
    ensures flights == Passed(batch)
    ensures forall k :: k in deadLettered <==> 0 <= k < |batch| && batch[k].Poison? && reaches(k)
    ensures forall k :: k in lost <==> 0 <= k < |batch| && batch[k].Poison? && !reaches(k)
    ensures Increasing(deadLettered) && Increasing(lost)
    ensures counts.messages == |batch| == |flights| + counts.parseErrors + counts.skipped
    ensures counts.parseErrors == |deadLettered| + |lost|
  {
    flights, deadLettered, lost, counts := [], [], [], Counts(0, 0, 0);
    for i := 0 to |batch|
      invariant flights == Passed(batch[..i])
      invariant forall k :: k in deadLettered <==> 0 <= k < i && batch[k].Poison? && reaches(k)
      invariant forall k :: k in lost <==> 0 <= k < i && batch[k].Poison? && !reaches(k)
      invariant Increasing(deadLettered) && Increasing(lost)
      invariant counts.messages == i == |flights| + counts.parseErrors + counts.skipped
      invariant counts.parseErrors == |deadLettered| + |lost|
    {
      assert batch[..i + 1][..i] == batch[..i];
      counts := counts.(messages := counts.messages + 1);
      if batch[i].Poison? {
        counts := counts.(parseErrors := counts.parseErrors + 1);
        if reaches(i) {
          StaysIncreasing(deadLettered, i);
          deadLettered := deadLettered + [i];
        } else {
          StaysIncreasing(lost, i);
          lost := lost + [i];
        }
      } else if batch[i].flight.gufi == "" {
        counts := counts.(skipped := counts.skipped + 1);
      } else {
        flights := flights + [Arrival(batch[i].flight, 0, 0)];
      }
    }
    assert batch[..|batch|] == batch;
  }

  lemma WritingAgainIsNoOp(db0: Db, db: Db, batch: seq<Arrival>)
    requires TiesAgree(batch) && SameTables(db, RecordEach(db0, batch))
    ensures SameTables(RecordEach(db, batch), RecordEach(db0, batch))
  {
    RedeliveryOfManyIsNoOp(db0, batch, batch);
    TablesDetermineTables(db, RecordEach(db0, batch), batch);
  }

  /**
   The retry loop. `faults` is what the database does to the attempts, in order, before it recovers.
   Even if some attempts were applied and only reported failed, flights and airports end up as after
   one write of the batch, if equal timestamps of a flight carry equal statuses.
   */
  method WriteUntilDurable(store: Store, batch: seq<Arrival>, faults: seq<Fault>) returns (attempts: nat)
    requires ForeignKeysHold(store.Contents())
    modifies store
    ensures ForeignKeysHold(store.Contents())
    ensures TiesAgree(batch) ==> SameTables(store.Contents(), RecordEach(old(store.Contents()), batch))
    ensures 1 <= attempts <= |faults| + 1
  {
    ghost var before := store.Contents();
    attempts := 0;
    var ok := false;
    while !ok
      invariant ForeignKeysHold(store.Contents())
      invariant attempts <= |faults| + if ok then 1 else 0
      invariant ok ==> attempts >= 1
      invariant TiesAgree(batch) ==>
        store.Contents() == before || SameTables(store.Contents(), RecordEach(before, batch))
      invariant TiesAgree(batch) && ok ==> SameTables(store.Contents(), RecordEach(before, batch))
      decreases !ok, |faults| - attempts
    {
      if TiesAgree(batch) && store.Contents() != before {
        WritingAgainIsNoOp(before, store.Contents(), batch);
      }
      ok := store.RecordBatch(batch, if attempts < |faults| then faults[attempts] else NoFault);
      attempts := attempts + 1;
    }
  }
}
