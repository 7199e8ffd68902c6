/**
 The cache-writer's per-message routine over a Redis store that can fail.
 */
module CacheWriter {
  import opened Sql
  import opened RedisView

  datatype Message = Poison | Parsed(flight: Flight)

  /** How a write goes: done, not done, or done with the reply lost. */
  datatype Fault = NoFault | NotApplied | ReplyLost

  /** The message took effect; one that asks for nothing always does. */
  predicate Reaches(f: Flight, fault: Fault) {
    ActionOf(f) == Keep || fault != NotApplied
  }

  /** Heading and speed are the message's, or what a live key showed before, or absent. */
  ghost predicate ShowsMotion(h: Hash, f: Flight, before: Option<Hash>) {
    && f.position.Some?
    && (f.position.value.motion.Some? ==> h.motion == f.position.value.motion)
    && (f.position.value.motion.None? && before.Some? ==> h.motion == before.value.motion)
    && (f.position.value.motion.None? && before.None? ==> h.motion.None?)
  }

  function OneIf(b: bool): nat {
    if b then 1 else 0
  }

  /** Whether the loop commits the message afterwards. */
  predicate Commits(m: Message, fault: Fault, quarantined: bool) {
    if m.Poison? then quarantined else ActionOf(m.flight) == Keep || fault == NoFault
  }

  lemma KeysAfterOne(ttl: int, history: seq<Applied>, a: Applied)
    ensures KeysAfter(ttl, history + [a]) == Apply(KeysAfter(ttl, history), ttl, a.flight, a.at)
  {
    assert (history + [a])[..|history|] == history;
  }

  lemma WhatOneMessageDoes(ttl: int, history: seq<Applied>, f: Flight, now: int)
    ensures var keys, after := KeysAfter(ttl, history), KeysAfter(ttl, history + [Applied(f, now)]);
      && (f.status != "ACTIVE" ==> after == keys - {f.gufi})
      && (f.status == "ACTIVE" && f.position.None? ==> after == keys)
      && (f.status == "ACTIVE" && f.position.Some? ==>
            after == keys[f.gufi := Stored(Merged(Live(keys, f.gufi, now), f, now), now + ttl)])
  {
    KeysAfterOne(ttl, history, Applied(f, now));
  }

  class Cache {
    const ttl: int
    var keys: map<string, Stored>
    var messages: nat
    var parseErrors: nat
    var removed: nat
    var noPosition: nat
    var stored: nat
    var writeErrors: nat
    ghost var history: seq<Applied> // the messages that reached the store, with their times

    ghost predicate Valid()
      reads this
    {
      && keys == KeysAfter(ttl, history)
      && messages == parseErrors + removed + noPosition + stored + writeErrors
    }

    constructor (ttl: int)
      ensures Valid() && this.ttl == ttl && history == []
    {
      this.ttl := ttl;
      keys, history := map[], [];
      messages, parseErrors, removed, noPosition, stored, writeErrors := 0, 0, 0, 0, 0, 0;
    }

    /** HSET and EXPIRE in one transaction. */
    method UpsertFlight(f: Flight, now: int, fault: Fault) returns (ok: bool)
      requires f.position.Some?
      modifies this`keys
      ensures ok == (fault == NoFault)
      ensures fault == NotApplied ==> keys == old(keys)
      ensures fault != NotApplied ==>
        keys == old(keys)[f.gufi := Stored(Merged(Live(old(keys), f.gufi, now), f, now), now + ttl)]
      ensures fault != NotApplied ==>
        && f.gufi in keys && keys[f.gufi].expires == now + ttl && ShowsMessage(keys[f.gufi].hash, f, now)
        && keys - {f.gufi} == old(keys) - {f.gufi}
      ensures fault != NotApplied ==> ShowsMotion(keys[f.gufi].hash, f, Live(old(keys), f.gufi, now))
    {
      if fault != NotApplied {
        var hash := Merged(Live(keys, f.gufi, now), f, now);
        keys := keys[f.gufi := Stored(hash, now + ttl)];
      }
      ok := fault == NoFault;
    }

    method DeleteFlight(gufi: string, fault: Fault) returns (ok: bool)
      modifies this`keys
      ensures ok == (fault == NoFault)
      ensures keys == if fault == NotApplied then old(keys) else old(keys) - {gufi}
    {
      if fault != NotApplied {
        keys := keys - {gufi};
      }
      ok := fault == NoFault;
    }

    /**
     Poison is dead-lettered, a flight that is not ACTIVE is dropped, one without a position is
     ignored, the rest is stored. The offset is committed unless the write or the quarantine failed.
     */
    method Process(m: Message, now: int, fault: Fault, quarantined: bool) returns (commit: bool)
      requires Valid()
      modifies this
      ensures Valid()
      ensures messages == old(messages) + 1
      ensures parseErrors == old(parseErrors) + OneIf(m.Poison?)
      ensures removed == old(removed) + OneIf(m.Parsed? && m.flight.status != "ACTIVE" && fault == NoFault)
      ensures noPosition
           == old(noPosition) + OneIf(m.Parsed? && m.flight.status == "ACTIVE" && m.flight.position.None?)
      ensures stored == old(stored)
           + OneIf(m.Parsed? && m.flight.status == "ACTIVE" && m.flight.position.Some? && fault == NoFault)
      ensures commit == Commits(m, fault, quarantined)
      ensures m.Poison? ==> keys == old(keys) && history == old(history)
      ensures m.Parsed? && Reaches(m.flight, fault) ==> history == old(history) + [Applied(m.flight, now)]
      ensures m.Parsed? && !Reaches(m.flight, fault) ==> history == old(history)
    {
      messages := messages + 1;
      if m.Poison? {
        parseErrors := parseErrors + 1;
        return quarantined;
      }
      var f := m.flight;
      commit := Write(f, now, fault);
      if f.status != "ACTIVE" {
        if !commit {
          writeErrors := writeErrors + 1;
        } else {
          removed := removed + 1;
        }
      } else if f.position.None? {
        noPosition := noPosition + 1;
      } else if !commit {
        writeErrors := writeErrors + 1;
      } else {
        stored := stored + 1;
      }
    }

    /** The store operation a message leads to, if any. */
    method Write(f: Flight, now: int, fault: Fault) returns (ok: bool)
      requires keys == KeysAfter(ttl, history)
      modifies this`keys, this`history
      ensures keys == KeysAfter(ttl, history)
      ensures ok == (ActionOf(f) == Keep || fault == NoFault)
      ensures history == if Reaches(f, fault) then old(history) + [Applied(f, now)] else old(history)
      ensures ActionOf(f) == Keep ==> keys == old(keys)
    {
      WhatOneMessageDoes(ttl, history, f, now);
      if f.status != "ACTIVE" {
        ok := DeleteFlight(f.gufi, fault);
      } else if f.position.Some? {
        ok := UpsertFlight(f, now, fault);
      } else {
        ok := true;
      }
      if Reaches(f, fault) {
        history := history + [Applied(f, now)];
      }
    }
  }
}
