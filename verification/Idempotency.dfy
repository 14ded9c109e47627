/**
 The idempotency cache: requests carrying a key either run, wait for a run in flight, replay a
 recorded answer or are refused.

 The mutex makes each locked section one step, so a run of the server is a list of actions over the
 entries (kept in a heap, since a runner holds its entry by pointer), the table and the requests.
 An action that is not enabled does nothing. Clock readings never go back.
 */
module Idempotency {
  import opened Wrappers

  const MAX_ENTRIES := 4096

  /** started and closes are history: when the run began, and how often the wait channel was closed. */
  datatype Entry = Entry(
    key: string, fp: string, owner: nat, done: bool, answer: Response, expires: int, started: int, closes: nat)

  /** A recorded answer, and what the capturing writer holds when a run returns. */
  datatype Response = Response(status: int, contentType: string, body: string)

  datatype Captured = Captured(status: int, contentType: string, header: string, body: string)

  const NO_RESPONSE := Response(0, "", "")

  /** A run that set no status answered 200, and its content type may only be in the header. */
  function Recording(got: Captured): Response {
    Response(if got.status == 0 then 200 else got.status,
             if got.contentType == "" then got.header else got.contentType, got.body)
  }

  /** What the cache's fields hold. */
  datatype Cache = Cache(ttl: int, heap: seq<Entry>, table: map<string, nat>)

  function Lookup(c: Cache, key: string): Option<Entry> {
    if key in c.table && c.table[key] < |c.heap| then Some(c.heap[c.table[key]]) else None
  }

  predicate Done(c: Cache, key: string) {
    Lookup(c, key).Some? && Lookup(c, key).value.done
  }

  function InFlight(c: Cache): set<string> {
    set k | k in c.table && !Done(c, k)
  }

  // ---- the locked helpers ------------------------------------------------------------

  predicate Expired(c: Cache, key: string, now: int) {
    Done(c, key) && now > Lookup(c, key).value.expires
  }

  /** purgeExpiredLocked: forget finished entries the clock has passed. */
  function Purge(c: Cache, now: int): Cache {
    c.(table := map k | k in c.table && !Expired(c, k, now) :: c.table[k])
  }

  /** What evictOldestLocked may pick: a finished entry none expires before, if any is finished. */
  ghost predicate MayEvict(c: Cache, victim: Option<string>) {
    match victim
    case None => forall k | k in c.table :: !Done(c, k)
    case Some(v) =>
      && v in c.table && Done(c, v)
      && forall k | k in c.table && Done(c, k) :: Lookup(c, v).value.expires <= Lookup(c, k).value.expires
  }

  /** A full table evicts what it may; otherwise the victim does not matter. */
  ghost predicate VictimOk(c: Cache, victim: Option<string>) {
    |c.table| >= MAX_ENTRIES ==> MayEvict(c, victim)
  }

  function MakeRoom(c: Cache, victim: Option<string>): Cache {
    if |c.table| >= MAX_ENTRIES && victim.Some? then c.(table := c.table - {victim.value}) else c
  }

  /** A new entry in flight, replacing whatever the key had. */
  function Insert(c: Cache, key: string, fp: string, owner: nat, now: int): Cache {
    c.(heap := c.heap + [Entry(key, fp, owner, false, NO_RESPONSE, now + c.ttl, now, 0)],
       table := c.table[key := |c.heap|])
  }

  function Finish(c: Cache, entry: nat, got: Captured, now: int): Cache
    requires entry < |c.heap|
  {
    var e := c.heap[entry];
    c.(heap := c.heap[entry := e.(done := true, answer := Recording(got), expires := now + c.ttl, closes := e.closes + 1)])
  }

  datatype Decision = Refuse(entry: nat) | Wait(entry: nat) | Replay(entry: nat) | Run(rest: Cache)

  /** The first locked section, after the purge: what the key's entry says about this request. */
  function Decide(c: Cache, key: string, fp: string, now: int): Decision {
    match Lookup(c, key)
    case None => Run(c)
    case Some(e) =>
      if !e.done then (if e.fp == fp then Wait(c.table[key]) else Refuse(c.table[key]))
      else if now < e.expires then (if e.fp == fp then Replay(c.table[key]) else Refuse(c.table[key]))
      else Run(c.(table := c.table - {key}))
  }

  /** The key has an entry that is in flight or has not expired: what the first section checks, and a retry does not. */
  predicate Live(c: Cache, key: string, now: int) {
    match Lookup(c, key)
    case None => false
    case Some(e) => !e.done || now < e.expires
  }

  /** The re-check a waiter makes when the channel it waited on is closed. */
  predicate Answers(c: Cache, key: string, fp: string, now: int) {
    Done(c, key) && Lookup(c, key).value.fp == fp && now < Lookup(c, key).value.expires
  }

  // ---- requests and runs ----------------------------------------------------------------

  datatype Phase =
    | Arrived
    | Waiting(on: nat)               // blocked on the wait channel of an entry
    | Retrying                       // woke up without an answer, about to take the mutex again
    | Running(entry: nat)
    | Ran(entry: nat, got: Captured, at: int) // history: what the run produced, and when it completed
    | Replayed(entry: nat, answer: Response)
    | Refused(entry: nat)
    | Bypassed                       // no key: run without the cache

  datatype Request = Request(key: string, fp: string, phase: Phase)

  /**
   History: the peak of entries in flight; whether an entry was evicted; whether a waiter woke at or
   after the expiry; whether a retrying waiter started a run over a live entry of its key.
   */
  datatype History = History(peak: nat, evicted: bool, late: bool, overtaken: bool)

  datatype Sys = Sys(cache: Cache, requests: seq<Request>, now: int, history: History)

  datatype Action =
    | Arrive(key: string, fp: string)
    | Begin(r: nat, purged: int, checked: int, inserted: int, victim: Option<string>)
    | Wake(r: nat, at: int)
    | Retry(r: nat, at: int, victim: Option<string>)
    | Complete(r: nat, got: Captured, at: int)

  function Init(ttl: int, now: int): Sys {
    Sys(Cache(ttl, [], map[]), [], now, History(0, false, false, false))
  }

  function SetPhase(requests: seq<Request>, r: nat, phase: Phase): seq<Request>
    requires r < |requests|
  {
    requests[r := requests[r].(phase := phase)]
  }

  /** Evict if full, insert, and start running. */
  function StartRun(s: Sys, c: Cache, r: nat, at: int, victim: Option<string>): Sys
    requires r < |s.requests|
  {
    var q := s.requests[r];
    var c' := Insert(MakeRoom(c, victim), q.key, q.fp, r, at);
    Sys(c', SetPhase(s.requests, r, Running(|c.heap|)), at,
        History(if |InFlight(c')| > s.history.peak then |InFlight(c')| else s.history.peak,
                s.history.evicted || MakeRoom(c, victim) != c, s.history.late, s.history.overtaken))
  }

  /** The first locked section once the purge is done. */
  ghost function Serve(s: Sys, r: nat, checked: int, inserted: int, victim: Option<string>): Sys
    requires r < |s.requests| && VictimFits(s.cache, s.requests[r], checked, victim)
  {
    var (c, q) := (s.cache, s.requests[r]);
    match Decide(c, q.key, q.fp, checked)
    case Refuse(e) => s.(now := checked, requests := SetPhase(s.requests, r, Refused(e)))
    case Wait(e) => s.(now := checked, requests := SetPhase(s.requests, r, Waiting(e)))
    case Replay(e) => s.(now := checked, requests := SetPhase(s.requests, r, Recorded(c, q.key)))
    case Run(rest) => StartRun(s, rest, r, inserted, victim)
  }

  ghost predicate VictimFits(c: Cache, q: Request, checked: int, victim: Option<string>) {
    var d := Decide(c, q.key, q.fp, checked);
    d.Run? ==> VictimOk(d.rest, victim)
  }

  /** replayIdempotent: the recorded answer of the key's entry. */
  function Recorded(c: Cache, key: string): Phase {
    match Lookup(c, key)
    case Some(e) => Replayed(c.table[key], e.answer)
    case None => Retrying
  }

  ghost function DoBegin(s: Sys, r: nat, purged: int, checked: int, inserted: int, victim: Option<string>): Sys {
    if r >= |s.requests| || !s.requests[r].phase.Arrived? || !(s.now <= purged <= checked <= inserted) then s
    else if s.requests[r].key == "" then s.(requests := SetPhase(s.requests, r, Bypassed))
    else if !VictimFits(Purge(s.cache, purged), s.requests[r], checked, victim) then s
    else Serve(s.(cache := Purge(s.cache, purged), now := purged), r, checked, inserted, victim)
  }

  function DoWake(s: Sys, r: nat, at: int): Sys {
    if r >= |s.requests| || !s.requests[r].phase.Waiting? || s.requests[r].phase.on >= |s.cache.heap| || at < s.now then s
    else
      var q := s.requests[r];
      var e := s.cache.heap[q.phase.on];
      if e.closes == 0 then s
      else
        var phase := if Answers(s.cache, q.key, q.fp, at)
                     then Recorded(s.cache, q.key)
                     else Retrying;
        s.(now := at, requests := SetPhase(s.requests, r, phase),
           history := s.history.(late := s.history.late || at >= e.expires))
  }

  ghost function DoRetry(s: Sys, r: nat, at: int, victim: Option<string>): Sys {
    if r >= |s.requests| || !s.requests[r].phase.Retrying? || at < s.now || !VictimOk(s.cache, victim) then s
    else
      var t := StartRun(s, s.cache, r, at, victim);
      t.(history := t.history.(overtaken := s.history.overtaken || Live(s.cache, s.requests[r].key, at)))
  }

  function DoComplete(s: Sys, r: nat, got: Captured, at: int): Sys {
    if r >= |s.requests| || !s.requests[r].phase.Running? || at < s.now || s.requests[r].phase.entry >= |s.cache.heap| then s
    else
      var e := s.requests[r].phase.entry;
      s.(cache := Finish(s.cache, e, got, at), now := at, requests := SetPhase(s.requests, r, Ran(e, got, at)))
  }

  ghost function Apply(s: Sys, a: Action): Sys {
    match a
    case Arrive(key, fp) => s.(requests := s.requests + [Request(key, fp, Arrived)])
    case Begin(r, purged, checked, inserted, victim) => DoBegin(s, r, purged, checked, inserted, victim)
    case Wake(r, at) => DoWake(s, r, at)
    case Retry(r, at, victim) => DoRetry(s, r, at, victim)
    case Complete(r, got, at) => DoComplete(s, r, got, at)
  }

  ghost function Exec(s: Sys, actions: seq<Action>): Sys {
    if actions == [] then s else Apply(Exec(s, actions[..|actions| - 1]), actions[|actions| - 1])
  }

  // ---- the invariant of every interleaving ----------------------------------------------------

  ghost predicate Linked(c: Cache) {
    forall k | k in c.table :: c.table[k] < |c.heap| && c.heap[c.table[k]].key == k
  }

  /** Each wait channel is closed exactly when its run is done, and only once. */
  ghost predicate ClosedOnce(c: Cache) {
    forall e | 0 <= e < |c.heap| :: c.heap[e].closes == if c.heap[e].done then 1 else 0
  }

  /** An unfinished entry is being run by its owner. */
  ghost predicate Owned(heap: seq<Entry>, requests: seq<Request>) {
    forall e | 0 <= e < |heap| && !heap[e].done ::
      heap[e].owner < |requests| && requests[heap[e].owner].phase == Running(e)
  }

  /** What a request's phase says is true of the entry it names. */
  ghost predicate PhaseOk(heap: seq<Entry>, r: nat, q: Request) {
    match q.phase
    case Running(e) =>
      e < |heap| && heap[e].owner == r && !heap[e].done && heap[e].key == q.key && heap[e].fp == q.fp
    case Ran(e, _, _) =>
      e < |heap| && heap[e].owner == r && heap[e].done && heap[e].key == q.key && heap[e].fp == q.fp
    case Waiting(e) => e < |heap| && heap[e].key == q.key && heap[e].fp == q.fp
    case Replayed(e, answer) =>
      e < |heap| && heap[e].done && heap[e].key == q.key && heap[e].fp == q.fp && heap[e].answer == answer
    case Refused(e) => e < |heap| && heap[e].key == q.key && heap[e].fp != q.fp
    case Bypassed => q.key == ""
    case _ => true
  }

  ghost predicate PhasesOk(heap: seq<Entry>, requests: seq<Request>) {
    forall r | 0 <= r < |requests| :: PhaseOk(heap, r, requests[r])
  }

  ghost predicate Bounded(s: Sys) {
    && |InFlight(s.cache)| <= s.history.peak
    && (|s.cache.table| <= 4096 || |s.cache.table| <= s.history.peak)
  }

  ghost predicate Inv(s: Sys) {
    && Linked(s.cache) && ClosedOnce(s.cache) && Bounded(s)
    && Owned(s.cache.heap, s.requests) && PhasesOk(s.cache.heap, s.requests)
  }

  // ---- the table helpers keep what is in flight -------------------------------------------------

  lemma PurgeLaws(c: Cache, now: int)
    requires Linked(c)
    ensures var p := Purge(c, now);
            && Linked(p) && p.heap == c.heap
            && InFlight(p) == InFlight(c) && p.table.Keys <= c.table.Keys
            && (forall k | k in p.table :: p.table[k] == c.table[k])
            && |p.table| <= |c.table|
            && (forall k | k in c.table :: k in p.table <==> !(c.heap[c.table[k]].done && c.heap[c.table[k]].expires < now))
  {
    var p := Purge(c, now);
    SubsetSize(p.table.Keys, c.table.Keys);
    assert |p.table| == |p.table.Keys| && |c.table| == |c.table.Keys|;
  }

  lemma {:induction false} SubsetSize<T>(a: set<T>, b: set<T>)
    requires a <= b
    ensures |a| <= |b|
    decreases b
  {
    if x :| x in a {
      SubsetSize(a - {x}, b - {x});
    }
  }

  lemma DropDone(c: Cache, key: string)
    requires Linked(c) && key in c.table && Done(c, key)
    ensures var d := c.(table := c.table - {key}); Linked(d) && InFlight(d) == InFlight(c) && |d.table| == |c.table| - 1
  {
    var d := c.(table := c.table - {key});
    assert d.table.Keys == c.table.Keys - {key};
    assert |d.table| == |d.table.Keys| && |c.table| == |c.table.Keys|;
  }

  lemma MakeRoomLaws(c: Cache, victim: Option<string>)
    requires Linked(c) && VictimOk(c, victim)
    ensures var m := MakeRoom(c, victim);
            && Linked(m) && m.heap == c.heap && InFlight(m) == InFlight(c)
            && (|m.table| < MAX_ENTRIES || |m.table| < |c.table| || m.table.Keys == InFlight(m))
            && |m.table| <= |c.table|
  {
    if |c.table| >= MAX_ENTRIES {
      match victim {
        case Some(v) => DropDone(c, v);
        case None => assert c.table.Keys == InFlight(c);
      }
    }
  }

  lemma InsertSize(c: Cache, key: string, fp: string, owner: nat, now: int)
    ensures var i := Insert(c, key, fp, owner, now);
            i.table.Keys == c.table.Keys + {key} && |i.table| <= |c.table| + 1
  {
    var i := Insert(c, key, fp, owner, now);
    assert i.table.Keys == c.table.Keys + {key};
    assert |i.table| == |i.table.Keys| && |c.table| == |c.table.Keys|;
  }

  lemma InsertInFlight(c: Cache, key: string, fp: string, owner: nat, now: int)
    requires Linked(c)
    ensures var i := Insert(c, key, fp, owner, now); Linked(i) && InFlight(i) == InFlight(c) + {key}
  {
    var i := Insert(c, key, fp, owner, now);
    forall k | k in i.table
      ensures Done(i, k) <==> k != key && Done(c, k)
    {
      if k != key { assert i.heap[c.table[k]] == c.heap[c.table[k]]; }
    }
    assert i.table.Keys == c.table.Keys + {key};
  }

  /** Evict-then-insert grows the table past the limit only while everything in it is in flight. */
  lemma RoomForOne(c: Cache, victim: Option<string>, key: string, fp: string, owner: nat, now: int)
    requires Linked(c) && VictimOk(c, victim)
    ensures var i := Insert(MakeRoom(c, victim), key, fp, owner, now);
            && Linked(i) && InFlight(i) == InFlight(c) + {key}
            && (|i.table| <= MAX_ENTRIES || |i.table| <= |c.table| || |i.table| == |InFlight(i)|)
  {
    var m := MakeRoom(c, victim);
    var i := Insert(m, key, fp, owner, now);
    MakeRoomLaws(c, victim);
    InsertSize(m, key, fp, owner, now);
    InsertInFlight(m, key, fp, owner, now);
    if m.table.Keys == InFlight(m) {
      assert i.table.Keys == InFlight(i);
      assert |i.table| == |i.table.Keys|;
    }
  }

  lemma StartRunIsBounded(s: Sys, c: Cache, r: nat, at: int, victim: Option<string>)
    requires r < |s.requests| && Linked(c) && VictimOk(c, victim)
    requires |InFlight(c)| <= s.history.peak && (|c.table| <= MAX_ENTRIES || |c.table| <= s.history.peak)
    ensures Bounded(StartRun(s, c, r, at, victim)) && Linked(StartRun(s, c, r, at, victim).cache)
  {
    RoomForOne(c, victim, s.requests[r].key, s.requests[r].fp, r, at);
  }

  lemma StartRunKeepsPhases(s: Sys, c: Cache, r: nat, at: int, victim: Option<string>)
    requires r < |s.requests| && !s.requests[r].phase.Running? && c.heap == s.cache.heap
    requires ClosedOnce(s.cache) && Owned(s.cache.heap, s.requests) && PhasesOk(s.cache.heap, s.requests)
    ensures var t := StartRun(s, c, r, at, victim);
            ClosedOnce(t.cache) && Owned(t.cache.heap, t.requests) && PhasesOk(t.cache.heap, t.requests)
  {
    var t := StartRun(s, c, r, at, victim);
    forall i | 0 <= i < |t.requests|
      ensures PhaseOk(t.cache.heap, i, t.requests[i])
    {
      assert PhaseOk(s.cache.heap, i, s.requests[i]);
    }
  }

  lemma SetPhaseKeepsInv(s: Sys, r: nat, phase: Phase, now: int)
    requires Inv(s) && r < |s.requests| && !s.requests[r].phase.Running?
    requires PhaseOk(s.cache.heap, r, s.requests[r].(phase := phase))
    ensures Inv(s.(now := now, requests := SetPhase(s.requests, r, phase)))
  {
  }

  lemma PurgeKeepsInv(s: Sys, now: int)
    requires Inv(s)
    ensures Inv(s.(cache := Purge(s.cache, now), now := now))
  {
    PurgeLaws(s.cache, now);
  }

  lemma ServeRunKeepsInv(s: Sys, r: nat, rest: Cache, at: int, victim: Option<string>)
    requires Inv(s) && r < |s.requests| && s.requests[r].phase.Arrived? && VictimOk(rest, victim)
    requires rest == s.cache ||
             (Done(s.cache, s.requests[r].key) && rest == s.cache.(table := s.cache.table - {s.requests[r].key}))
    ensures Inv(StartRun(s, rest, r, at, victim))
  {
    if rest != s.cache {
      DropDone(s.cache, s.requests[r].key);
    }
    StartRunIsBounded(s, rest, r, at, victim);
    StartRunKeepsPhases(s, rest, r, at, victim);
  }

  /** What the verdict of the locked section means for the entry it names. */
  lemma DecideMeans(c: Cache, r: nat, q: Request, now: int)
    requires Linked(c)
    ensures match Decide(c, q.key, q.fp, now)
            case Refuse(e) => PhaseOk(c.heap, r, q.(phase := Refused(e)))
            case Wait(e) => PhaseOk(c.heap, r, q.(phase := Waiting(e))) && !c.heap[e].done
            case Replay(e) => PhaseOk(c.heap, r, q.(phase := Recorded(c, q.key))) && Recorded(c, q.key).Replayed?
            case Run(rest) => rest == c || (Done(c, q.key) && rest == c.(table := c.table - {q.key}))
  {
  }

  lemma ServeKeepsInv(s: Sys, r: nat, checked: int, inserted: int, victim: Option<string>)
    requires Inv(s) && r < |s.requests| && s.requests[r].phase.Arrived?
    requires VictimFits(s.cache, s.requests[r], checked, victim)
    ensures Inv(Serve(s, r, checked, inserted, victim))
  {
    var (c, q) := (s.cache, s.requests[r]);
    DecideMeans(c, r, q, checked);
    var d := Decide(c, q.key, q.fp, checked);
    if d.Run? {
      ServeRunKeepsInv(s, r, d.rest, inserted, victim);
    } else {
      var phase := if d.Refuse? then Refused(d.entry) else if d.Wait? then Waiting(d.entry) else Recorded(c, q.key);
      SetPhaseKeepsInv(s, r, phase, checked);
      assert Serve(s, r, checked, inserted, victim) == s.(now := checked, requests := SetPhase(s.requests, r, phase));
    }
  }

  lemma BeginKeepsInv(s: Sys, r: nat, purged: int, checked: int, inserted: int, victim: Option<string>)
    requires Inv(s)
    ensures Inv(DoBegin(s, r, purged, checked, inserted, victim))
  {
    if r < |s.requests| && s.requests[r].phase.Arrived? {
      PurgeKeepsInv(s, purged);
      if s.requests[r].key == "" {
        SetPhaseKeepsInv(s, r, Bypassed, s.now);
      } else if VictimFits(Purge(s.cache, purged), s.requests[r], checked, victim) {
        ServeKeepsInv(s.(cache := Purge(s.cache, purged), now := purged), r, checked, inserted, victim);
      }
    }
  }

  lemma WakeKeepsInv(s: Sys, r: nat, at: int)
    requires Inv(s)
    ensures Inv(DoWake(s, r, at))
  {
    if r < |s.requests| && s.requests[r].phase.Waiting? {
      var q := s.requests[r];
      if Answers(s.cache, q.key, q.fp, at) {
        SetPhaseKeepsInv(s, r, Recorded(s.cache, q.key), at);
      } else {
        SetPhaseKeepsInv(s, r, Retrying, at);
      }
    }
  }

  lemma RetryKeepsInv(s: Sys, r: nat, at: int, victim: Option<string>)
    requires Inv(s)
    ensures Inv(DoRetry(s, r, at, victim))
  {
    if r < |s.requests| && s.requests[r].phase.Retrying? && VictimOk(s.cache, victim) {
      StartRunIsBounded(s, s.cache, r, at, victim);
      StartRunKeepsPhases(s, s.cache, r, at, victim);
    }
  }

  lemma FinishLaws(c: Cache, e: nat, got: Captured, now: int)
    requires Linked(c) && ClosedOnce(c) && e < |c.heap| && !c.heap[e].done
    ensures var f := Finish(c, e, got, now); Linked(f) && ClosedOnce(f) && |InFlight(f)| <= |InFlight(c)|
  {
    SubsetSize(InFlight(Finish(c, e, got, now)), InFlight(c));
  }

  lemma CompleteKeepsInv(s: Sys, r: nat, got: Captured, at: int)
    requires Inv(s)
    ensures Inv(DoComplete(s, r, got, at))
  {
    var t := DoComplete(s, r, got, at);
    if r < |s.requests| && s.requests[r].phase.Running? && at >= s.now {
      assert PhaseOk(s.cache.heap, r, s.requests[r]);
      FinishLaws(s.cache, s.requests[r].phase.entry, got, at);
      forall i | 0 <= i < |t.requests|
        ensures PhaseOk(t.cache.heap, i, t.requests[i])
      {
        assert PhaseOk(s.cache.heap, i, s.requests[i]);
      }
    }
  }

  lemma ArriveKeepsInv(s: Sys, key: string, fp: string)
    requires Inv(s)
    ensures Inv(Apply(s, Arrive(key, fp)))
  {
    var t := Apply(s, Arrive(key, fp));
    forall i | 0 <= i < |t.requests|
      ensures PhaseOk(t.cache.heap, i, t.requests[i])
    {
      assert i < |s.requests| ==> PhaseOk(s.cache.heap, i, s.requests[i]);
    }
  }

  lemma StepKeepsInv(s: Sys, a: Action)
    requires Inv(s)
    ensures Inv(Apply(s, a))
  {
    match a {
      case Arrive(key, fp) => ArriveKeepsInv(s, key, fp);
      case Begin(r, purged, checked, inserted, victim) => BeginKeepsInv(s, r, purged, checked, inserted, victim);
      case Wake(r, at) => WakeKeepsInv(s, r, at);
      case Retry(r, at, victim) => RetryKeepsInv(s, r, at, victim);
      case Complete(r, got, at) => CompleteKeepsInv(s, r, got, at);
    }
  }

  /**
   In every interleaving, evictions and late waiters included: each wait channel is closed exactly
   once, when its run completes; every unfinished entry has its one runner; a replayed answer is the
   recorded one of a finished run with the same key and fingerprint, a refusal names an entry with
   the same key and another fingerprint; and the table holds at most 4096 entries or the peak number
   that were in flight at once.
   */
  lemma {:induction false} EveryInterleavingIsSound(ttl: int, now: int, actions: seq<Action>)
    ensures Inv(Exec(Init(ttl, now), actions))
  {
    if actions != [] {
      EveryInterleavingIsSound(ttl, now, actions[..|actions| - 1]);
      StepKeepsInv(Exec(Init(ttl, now), actions[..|actions| - 1]), actions[|actions| - 1]);
    }
  }
}
