/** The cache object: the locked sections as methods that update the entries and the table in place. */
module IdempotencyCache {
  import opened Wrappers
  import opened Idempotency

  const DEFAULT_TTL := 600_000_000_000 // ten minutes, in nanoseconds

  class Cache {
    const ttl: int
    var heap: seq<Entry>
    var table: map<string, nat>

    ghost function State(): Idempotency.Cache
      reads this
    {
      Idempotency.Cache(ttl, heap, table)
    }

    constructor (ttl: int)
      ensures State() == Idempotency.Cache(if ttl <= 0 then 10 * 60 * 1_000_000_000 else ttl, [], map[])
    {
      this.ttl := if ttl <= 0 then DEFAULT_TTL else ttl;
      heap, table := [], map[];
    }

    method PurgeExpiredLocked(now: int)
      requires Linked(State())
      modifies this`table
      ensures State() == Purge(old(State()), now)
    {
      var left := table.Keys;
      while left != {}
        invariant left <= old(table).Keys
        invariant table == map k | k in old(table) && (k in left || !Expired(old(State()), k, now)) :: old(table)[k]
        decreases |left|
      {
        var k :| k in left;
        left := left - {k};
        var e := heap[table[k]];
        if e.done && now > e.expires {
          table := table - {k};
        }
      }
    }

    method EvictOldestLocked() returns (victim: Option<string>)
      requires Linked(State())
      modifies this`table
      ensures MayEvict(old(State()), victim)
      ensures table == if victim.Some? then old(table) - {victim.value} else old(table)
    {
      victim := None;
      var oldest := 0;
      var left := table.Keys;
      while left != {}
        invariant left <= table.Keys
        invariant victim.None? ==> forall k | k in table && k !in left :: !heap[table[k]].done
        invariant victim.Some? ==>
          && victim.value in table && heap[table[victim.value]].done && oldest == heap[table[victim.value]].expires
          && forall k | k in table && k !in left && heap[table[k]].done :: oldest <= heap[table[k]].expires
        decreases |left|
      {
        var k :| k in left;
        left := left - {k};
        var e := heap[table[k]];
        if !e.done {
          continue;
        }
        if victim.None? || e.expires < oldest {
          oldest, victim := e.expires, Some(k);
        }
      }
      if victim.Some? {
        table := table - {victim.value};
      }
    }

    /** Room is made when the table is full, then the entry goes in, in flight. */
    method InsertLocked(key: string, fp: string, owner: nat, now: int) returns (entry: nat, ghost victim: Option<string>)
      requires Linked(State())
      modifies this`heap, this`table
      ensures VictimOk(old(State()), victim) && entry == |old(heap)|
      ensures State() == Insert(MakeRoom(old(State()), victim), key, fp, owner, now)
    {
      if |table| >= MAX_ENTRIES {
        victim := EvictOldestLocked();
      } else {
        victim := None;
      }
      entry := |heap|;
      heap := heap + [Entry(key, fp, owner, false, NO_RESPONSE, now + ttl, now, 0)];
      table := table[key := entry];
    }

    /** From the first lock to the unlock before waiting, answering or running. */
    method Enter(key: string, fp: string, owner: nat, purged: int, checked: int, inserted: int)
      returns (phase: Phase, ghost victim: Option<string>)
      requires Linked(State())
      modifies this`heap, this`table
      ensures var c := Purge(old(State()), purged);
              match Decide(c, key, fp, checked)
              case Refuse(e) => phase == Refused(e) && State() == c
              case Wait(e) => phase == Waiting(e) && State() == c
              case Replay(e) => phase == Recorded(c, key) && State() == c
              case Run(rest) =>
                && phase == Running(|c.heap|) && VictimOk(rest, victim)
                && State() == Insert(MakeRoom(rest, victim), key, fp, owner, inserted)
    {
      PurgeLaws(State(), purged);
      PurgeExpiredLocked(purged);
      victim := None;
      if key in table {
        var e := heap[table[key]];
        if !e.done {
          if e.fp != fp { return Refused(table[key]), victim; }
          return Waiting(table[key]), victim;
        } else if checked < e.expires {
          if e.fp != fp { return Refused(table[key]), victim; }
          return Replayed(table[key], e.answer), victim;
        } else {
          table := table - {key};
        }
      }
      var entry;
      entry, victim := InsertLocked(key, fp, owner, inserted);
      phase := Running(entry);
    }

    /** The section after waking: replay, or go on to insert. */
    method Recheck(key: string, fp: string, at: int) returns (phase: Phase)
      requires Linked(State())
      ensures phase == if Answers(State(), key, fp, at) then Recorded(State(), key) else Retrying
    {
      if key in table {
        var e := heap[table[key]];
        if e.done && e.fp == fp && at < e.expires {
          return Replayed(table[key], e.answer);
        }
      }
      phase := Retrying;
    }

    /** The last section: record status, content type and body, and close the wait channel. */
    method CompleteLocked(entry: nat, got: Captured, at: int)
      requires entry < |heap|
      modifies this`heap
      ensures State() == Finish(old(State()), entry, got, at)
    {
      var answer := Response(got.status, got.contentType, got.body);
      if answer.status == 0 {
        answer := answer.(status := 200);
      }
      if answer.contentType == "" {
        answer := answer.(contentType := got.header);
      }
      var e := heap[entry];
      heap := heap[entry := e.(answer := answer, done := true, expires := at + ttl, closes := e.closes + 1)];
    }
  }
}
