/**
 When the idempotency cache runs a key once at a time. Without evictions this is exactly when no
 waiter that woke without an answer started a run over a live entry of its key: the first locked
 section looks for such an entry, the retry does not.
 */
module IdempotencyOnce {
  import opened Wrappers
  import opened Idempotency

  ghost predicate AtItsKey(c: Cache, e: nat)
    requires e < |c.heap|
  {
    c.heap[e].key in c.table && c.table[c.heap[e].key] == e
  }

  /** Every entry the table forgot is finished and expired. */
  ghost predicate Settled(c: Cache, now: int) {
    forall e | 0 <= e < |c.heap| :: AtItsKey(c, e) || (c.heap[e].done && c.heap[e].expires <= now)
  }

  /** Of two runs of one key, the earlier had finished and expired when the later started. */
  ghost predicate OneAtATime(heap: seq<Entry>) {
    forall e, f | 0 <= e < f < |heap| && heap[e].key == heap[f].key ::
      heap[e].done && heap[e].expires <= heap[f].started
  }

  /** The state of the table while nothing was evicted and no run started over a live entry. */
  ghost predicate Once(s: Sys) {
    !s.history.evicted && !s.history.overtaken ==> Settled(s.cache, s.now) && OneAtATime(s.cache.heap)
  }

  lemma PurgeSettles(c: Cache, now: int, purged: int)
    requires Linked(c) && Settled(c, now) && now <= purged
    ensures Settled(Purge(c, purged), purged)
  {
  }

  lemma InsertSettles(c: Cache, key: string, fp: string, owner: nat, now: int, at: int)
    requires Linked(c) && Settled(c, now) && now <= at && !Live(c, key, at)
    ensures Settled(Insert(c, key, fp, owner, at), at)
  {
    var i := Insert(c, key, fp, owner, at);
    forall e | 0 <= e < |c.heap|
      ensures AtItsKey(i, e) || (i.heap[e].done && i.heap[e].expires <= at)
    {
      assert i.heap[e] == c.heap[e];
      assert AtItsKey(c, e) || (c.heap[e].done && c.heap[e].expires <= now);
    }
  }

  /** A new run is alone with its key exactly when it does not start over a live entry. */
  lemma InsertIsAlone(c: Cache, key: string, fp: string, owner: nat, now: int, at: int)
    requires Linked(c) && Settled(c, now) && now <= at && OneAtATime(c.heap)
    ensures OneAtATime(Insert(c, key, fp, owner, at).heap) <==> !Live(c, key, at)
  {
    var i := Insert(c, key, fp, owner, at);
    if Live(c, key, at) {
      var e, f := c.table[key], |c.heap|;
      assert i.heap[e].key == i.heap[f].key && !(i.heap[e].done && i.heap[e].expires <= i.heap[f].started);
    } else {
      forall e | 0 <= e < |c.heap| && c.heap[e].key == key
        ensures i.heap[e].done && i.heap[e].expires <= at
      {
        assert AtItsKey(c, e) || (c.heap[e].done && c.heap[e].expires <= now);
      }
    }
  }

  lemma StartRunIsOnce(s: Sys, c: Cache, r: nat, at: int, victim: Option<string>, now: int)
    requires r < |s.requests| && Linked(c) && Settled(c, now) && now <= at && OneAtATime(c.heap)
    requires !Live(c, s.requests[r].key, at)
    ensures Once(StartRun(s, c, r, at, victim))
  {
    InsertSettles(c, s.requests[r].key, s.requests[r].fp, r, now, at);
    InsertIsAlone(c, s.requests[r].key, s.requests[r].fp, r, now, at);
  }

  lemma DeletingKeepsSettled(c: Cache, key: string, fp: string, now: int, checked: int)
    requires Linked(c) && Settled(c, now) && now <= checked && Decide(c, key, fp, checked).Run?
    ensures var rest := Decide(c, key, fp, checked).rest;
            Linked(rest) && Settled(rest, checked) && key !in rest.table && rest.heap == c.heap
  {
    var rest := Decide(c, key, fp, checked).rest;
    forall e | 0 <= e < |c.heap|
      ensures AtItsKey(rest, e) || (c.heap[e].done && c.heap[e].expires <= checked)
    {
      assert AtItsKey(c, e) || (c.heap[e].done && c.heap[e].expires <= now);
    }
  }

  lemma ServeIsOnce(s: Sys, r: nat, checked: int, inserted: int, victim: Option<string>)
    requires Inv(s) && Once(s) && r < |s.requests| && s.now <= checked <= inserted
    requires VictimFits(s.cache, s.requests[r], checked, victim)
    ensures Once(Serve(s, r, checked, inserted, victim))
  {
    var (c, q) := (s.cache, s.requests[r]);
    var d := Decide(c, q.key, q.fp, checked);
    if d.Run? && !s.history.evicted && !s.history.overtaken {
      DeletingKeepsSettled(c, q.key, q.fp, s.now, checked);
      StartRunIsOnce(s, d.rest, r, inserted, victim, checked);
    } else if !d.Run? {
      DecideMeans(c, r, q, checked);
    }
  }

  lemma BeginIsOnce(s: Sys, r: nat, purged: int, checked: int, inserted: int, victim: Option<string>)
    requires Inv(s) && Once(s)
    ensures Once(DoBegin(s, r, purged, checked, inserted, victim))
  {
    if r < |s.requests| && s.now <= purged <= checked <= inserted
       && VictimFits(Purge(s.cache, purged), s.requests[r], checked, victim) {
      var p := s.(cache := Purge(s.cache, purged), now := purged);
      PurgeKeepsInv(s, purged);
      if !s.history.evicted && !s.history.overtaken { PurgeSettles(s.cache, s.now, purged); }
      ServeIsOnce(p, r, checked, inserted, victim);
    }
  }

  lemma RetryIsOnce(s: Sys, r: nat, at: int, victim: Option<string>)
    requires Inv(s) && Once(s)
    ensures Once(DoRetry(s, r, at, victim))
  {
    var t := DoRetry(s, r, at, victim);
    if t != s && !t.history.evicted && !t.history.overtaken {
      StartRunIsOnce(s, s.cache, r, at, victim, s.now);
    }
  }

  lemma CompleteIsOnce(s: Sys, r: nat, got: Captured, at: int)
    requires Inv(s) && Once(s)
    ensures Once(DoComplete(s, r, got, at))
  {
    var t := DoComplete(s, r, got, at);
    if t != s && !t.history.evicted && !t.history.overtaken {
      assert PhaseOk(s.cache.heap, r, s.requests[r]);
      forall e | 0 <= e < |t.cache.heap|
        ensures AtItsKey(t.cache, e) || (t.cache.heap[e].done && t.cache.heap[e].expires <= t.now)
      {
        assert AtItsKey(s.cache, e) || s.cache.heap[e].expires <= s.now;
      }
    }
  }

  lemma StepIsOnce(s: Sys, a: Action)
    requires Inv(s) && Once(s)
    ensures Once(Apply(s, a))
  {
    match a {
      case Begin(r, purged, checked, inserted, victim) => BeginIsOnce(s, r, purged, checked, inserted, victim);
      case Retry(r, at, victim) => RetryIsOnce(s, r, at, victim);
      case Complete(r, got, at) => CompleteIsOnce(s, r, got, at);
      case _ =>
    }
  }

  lemma {:induction false} OnceRun(ttl: int, now: int, actions: seq<Action>)
    ensures Once(Exec(Init(ttl, now), actions))
  {
    if actions != [] {
      var n := |actions| - 1;
      var s := Exec(Init(ttl, now), actions[..n]);
      OnceRun(ttl, now, actions[..n]);
      EveryInterleavingIsSound(ttl, now, actions[..n]);
      StepIsOnce(s, actions[n]);
    }
  }

  // ---- an overlap stays an overlap ---------------------------------------------------------

  /** Time and the heap only move on: an entry keeps its key and start, and finishing it renews its expiry. */
  ghost predicate MovesOn(s: Sys, t: Sys) {
    && t.cache.ttl == s.cache.ttl && s.now <= t.now && |s.cache.heap| <= |t.cache.heap|
    && (forall e | 0 <= e < |s.cache.heap| ::
          t.cache.heap[e].key == s.cache.heap[e].key && t.cache.heap[e].started == s.cache.heap[e].started
          && (t.cache.heap[e] == s.cache.heap[e] || t.cache.heap[e].expires >= s.now + s.cache.ttl))
    && (forall e | |s.cache.heap| <= e < |t.cache.heap| :: t.cache.heap[e].started <= t.now)
  }

  lemma StartRunMovesOn(s: Sys, c: Cache, r: nat, at: int, victim: Option<string>)
    requires r < |s.requests| && s.now <= at && c.heap == s.cache.heap && c.ttl == s.cache.ttl
    ensures MovesOn(s, StartRun(s, c, r, at, victim))
  {
    var t := StartRun(s, c, r, at, victim);
    assert t.cache.heap[..|s.cache.heap|] == s.cache.heap && t.cache.heap[|s.cache.heap|].started == at;
  }

  lemma ServeMovesOn(s: Sys, r: nat, checked: int, inserted: int, victim: Option<string>)
    requires r < |s.requests| && VictimFits(s.cache, s.requests[r], checked, victim) && s.now <= checked <= inserted
    ensures MovesOn(s, Serve(s, r, checked, inserted, victim))
  {
    var d := Decide(s.cache, s.requests[r].key, s.requests[r].fp, checked);
    var t := Serve(s, r, checked, inserted, victim);
    if d.Run? {
      StartRunMovesOn(s, d.rest, r, inserted, victim);
    } else {
      assert t.cache == s.cache && t.now == checked;
    }
  }

  lemma BeginMovesOn(s: Sys, r: nat, purged: int, checked: int, inserted: int, victim: Option<string>)
    ensures MovesOn(s, DoBegin(s, r, purged, checked, inserted, victim))
  {
    var t := DoBegin(s, r, purged, checked, inserted, victim);
    if t != s && s.requests[r].key != "" {
      var p := s.(cache := Purge(s.cache, purged), now := purged);
      assert p.cache.heap == s.cache.heap && p.cache.ttl == s.cache.ttl;
      ServeMovesOn(p, r, checked, inserted, victim);
      assert MovesOn(p, t);
    }
  }

  lemma RetryMovesOn(s: Sys, r: nat, at: int, victim: Option<string>)
    ensures MovesOn(s, DoRetry(s, r, at, victim))
  {
    if DoRetry(s, r, at, victim) != s {
      StartRunMovesOn(s, s.cache, r, at, victim);
    }
  }

  lemma CompleteMovesOn(s: Sys, r: nat, got: Captured, at: int)
    ensures MovesOn(s, DoComplete(s, r, got, at))
  {
  }

  lemma StepMovesOn(s: Sys, a: Action)
    ensures MovesOn(s, Apply(s, a))
  {
    match a {
      case Begin(r, purged, checked, inserted, victim) => BeginMovesOn(s, r, purged, checked, inserted, victim);
      case Retry(r, at, victim) => RetryMovesOn(s, r, at, victim);
      case Complete(r, got, at) => CompleteMovesOn(s, r, got, at);
      case _ =>
    }
  }

  ghost predicate StartedBy(heap: seq<Entry>, now: int) {
    forall e | 0 <= e < |heap| :: heap[e].started <= now
  }

  lemma OverlapStays(s: Sys, t: Sys)
    requires s.cache.ttl > 0 && StartedBy(s.cache.heap, s.now) && MovesOn(s, t)
    ensures StartedBy(t.cache.heap, t.now) && t.cache.ttl > 0
    ensures !OneAtATime(s.cache.heap) ==> !OneAtATime(t.cache.heap)
  {
    if !OneAtATime(s.cache.heap) {
      var h := s.cache.heap;
      var e, f :| 0 <= e < f < |h| && h[e].key == h[f].key && !(h[e].done && h[e].expires <= h[f].started);
      assert t.cache.heap[e].key == t.cache.heap[f].key;
    }
  }

  /** Starting over a live entry of the key is an overlap. */
  lemma OvertakingOverlaps(s: Sys, r: nat, at: int, victim: Option<string>)
    requires Linked(s.cache) && r < |s.requests| && Live(s.cache, s.requests[r].key, at)
    ensures !OneAtATime(StartRun(s, s.cache, r, at, victim).cache.heap)
  {
    var e := s.cache.table[s.requests[r].key];
    var heap := StartRun(s, s.cache, r, at, victim).cache.heap;
    assert heap[e] == s.cache.heap[e] && heap[|s.cache.heap|].key == s.requests[r].key;
  }

  ghost predicate OverlapKept(s: Sys) {
    s.cache.ttl > 0 && StartedBy(s.cache.heap, s.now) && (s.history.overtaken ==> !OneAtATime(s.cache.heap))
  }

  lemma OverlapStep(s: Sys, a: Action)
    requires Inv(s) && OverlapKept(s)
    ensures OverlapKept(Apply(s, a))
  {
    StepMovesOn(s, a);
    OverlapStays(s, Apply(s, a));
    OvertakenStep(s, a);
    if Overtakes(s, a) {
      OvertakingOverlaps(s, a.r, a.at, a.victim);
    }
  }

  lemma {:induction false} OvertakenRunsOverlap(ttl: int, now: int, actions: seq<Action>)
    requires ttl > 0
    ensures OverlapKept(Exec(Init(ttl, now), actions))
  {
    if actions != [] {
      var n := |actions| - 1;
      OvertakenRunsOverlap(ttl, now, actions[..n]);
      EveryInterleavingIsSound(ttl, now, actions[..n]);
      OverlapStep(Exec(Init(ttl, now), actions[..n]), actions[n]);
    }
  }

  // ---- exactly when a key runs once at a time ------------------------------------------------

  /** The step starts a retried run over a live entry of its key. */
  ghost predicate Overtakes(s: Sys, a: Action) {
    a.Retry? && DoRetry(s, a.r, a.at, a.victim) != s && a.r < |s.requests| && Live(s.cache, s.requests[a.r].key, a.at)
  }

  /** Somewhere in the run a retried run starts over a live entry of its key. */
  ghost predicate SomeoneOvertakes(s: Sys, actions: seq<Action>) {
    actions != [] &&
    var init := actions[..|actions| - 1];
    SomeoneOvertakes(s, init) || Overtakes(Exec(s, init), actions[|actions| - 1])
  }

  lemma {:induction false} OvertakenMeans(s: Sys, actions: seq<Action>)
    ensures Exec(s, actions).history.overtaken <==> s.history.overtaken || SomeoneOvertakes(s, actions)
  {
    if actions != [] {
      var init := actions[..|actions| - 1];
      OvertakenMeans(s, init);
      OvertakenStep(Exec(s, init), actions[|actions| - 1]);
    }
  }

  lemma OvertakenStep(s: Sys, a: Action)
    ensures Apply(s, a).history.overtaken <==> s.history.overtaken || Overtakes(s, a)
  {
  }

  /**
   Exactly: in a run without evictions, of every two runs of one key the earlier had completed, and
   its entry expired, before the later started, if and only if no retried run started over a live
   entry of its key.
   */
  lemma OneRunAtATimeIff(ttl: int, now: int, actions: seq<Action>)
    requires ttl > 0
    ensures var s := Exec(Init(ttl, now), actions);
            !s.history.evicted ==> (OneAtATime(s.cache.heap) <==> !SomeoneOvertakes(Init(ttl, now), actions))
  {
    OnceRun(ttl, now, actions);
    OvertakenRunsOverlap(ttl, now, actions);
    OvertakenMeans(Init(ttl, now), actions);
  }

  // ---- punctual waiters never retry ------------------------------------------------------------

  /** A waiter that wakes in time finds the entry it waited for, so it is answered. */
  lemma PunctualWaiterIsAnswered(s: Sys, r: nat, at: int)
    requires Inv(s) && Once(s) && !s.history.evicted && !s.history.overtaken
    requires r < |s.requests| && s.requests[r].phase.Waiting? && s.now <= at
    requires s.cache.heap[s.requests[r].phase.on].closes > 0 && at < s.cache.heap[s.requests[r].phase.on].expires
    ensures var e := s.requests[r].phase.on;
            DoWake(s, r, at).requests[r].phase == Replayed(e, s.cache.heap[e].answer)
  {
    var e := s.requests[r].phase.on;
    assert PhaseOk(s.cache.heap, r, s.requests[r]);
    assert AtItsKey(s.cache, e);
  }

  ghost predicate NobodyRetries(requests: seq<Request>) {
    forall r | 0 <= r < |requests| :: !requests[r].phase.Retrying?
  }

  /** While every waiter wakes in time nobody retries, so nothing is overtaken. */
  ghost predicate Punctual(s: Sys) {
    !s.history.evicted && !s.history.late ==> !s.history.overtaken && NobodyRetries(s.requests)
  }

  lemma ServeIsPunctual(s: Sys, r: nat, checked: int, inserted: int, victim: Option<string>)
    requires Linked(s.cache) && Punctual(s)
    requires r < |s.requests| && VictimFits(s.cache, s.requests[r], checked, victim)
    ensures Punctual(Serve(s, r, checked, inserted, victim))
  {
    DecideMeans(s.cache, r, s.requests[r], checked);
  }

  lemma BeginIsPunctual(s: Sys, r: nat, purged: int, checked: int, inserted: int, victim: Option<string>)
    requires Inv(s) && Punctual(s)
    ensures Punctual(DoBegin(s, r, purged, checked, inserted, victim))
  {
    var t := DoBegin(s, r, purged, checked, inserted, victim);
    if t != s && s.requests[r].key != "" {
      PurgeLaws(s.cache, purged);
      ServeIsPunctual(s.(cache := Purge(s.cache, purged), now := purged), r, checked, inserted, victim);
    }
  }

  lemma WakeIsPunctual(s: Sys, r: nat, at: int)
    requires Inv(s) && Once(s) && Punctual(s)
    ensures Punctual(DoWake(s, r, at))
  {
    var t := DoWake(s, r, at);
    if t != s && !t.history.evicted && !t.history.late {
      assert PhaseOk(s.cache.heap, r, s.requests[r]);
      PunctualWaiterIsAnswered(s, r, at);
    }
  }

  lemma {:induction false} PunctualRun(ttl: int, now: int, actions: seq<Action>)
    ensures Punctual(Exec(Init(ttl, now), actions))
  {
    if actions != [] {
      var n := |actions| - 1;
      var s := Exec(Init(ttl, now), actions[..n]);
      PunctualRun(ttl, now, actions[..n]);
      OnceRun(ttl, now, actions[..n]);
      EveryInterleavingIsSound(ttl, now, actions[..n]);
      match actions[n] {
        case Begin(r, purged, checked, inserted, victim) => BeginIsPunctual(s, r, purged, checked, inserted, victim);
        case Wake(r, at) => WakeIsPunctual(s, r, at);
        case _ =>
      }
    }
  }

  /**
   Hence at most one run per key until its entry expires, in every interleaving without an eviction
   in which every waiter wakes before expiry.
   */
  lemma RunsAtMostOnce(ttl: int, now: int, actions: seq<Action>)
    ensures var s := Exec(Init(ttl, now), actions);
            !s.history.evicted && !s.history.late ==> OneAtATime(s.cache.heap)
  {
    OnceRun(ttl, now, actions);
    PunctualRun(ttl, now, actions);
  }

  // ---- what stays in the table ------------------------------------------------------------

  lemma StartRunKeepsInFlight(s: Sys, c: Cache, r: nat, at: int, victim: Option<string>, key: string)
    requires r < |s.requests| && VictimOk(c, victim) && key in InFlight(c) && key != s.requests[r].key
    ensures var t := StartRun(s, c, r, at, victim); key in t.cache.table && t.cache.table[key] == c.table[key]
  {
  }

  lemma ServeKeepsInFlight(s: Sys, r: nat, checked: int, inserted: int, victim: Option<string>, key: string)
    requires Linked(s.cache) && key in InFlight(s.cache) && r < |s.requests|
    requires VictimFits(s.cache, s.requests[r], checked, victim)
    ensures var t := Serve(s, r, checked, inserted, victim);
            key in t.cache.table && t.cache.table[key] == s.cache.table[key]
  {
    var (c, q) := (s.cache, s.requests[r]);
    DecideMeans(c, r, q, checked);
    var d := Decide(c, q.key, q.fp, checked);
    if d.Run? {
      assert key != q.key;
      assert key in InFlight(d.rest);
      StartRunKeepsInFlight(s, d.rest, r, inserted, victim, key);
    }
  }

  lemma BeginKeepsInFlight(s: Sys, r: nat, purged: int, checked: int, inserted: int, victim: Option<string>, key: string)
    requires Linked(s.cache) && key in InFlight(s.cache)
    ensures var t := DoBegin(s, r, purged, checked, inserted, victim);
            key in t.cache.table && t.cache.table[key] == s.cache.table[key]
  {
    var c := Purge(s.cache, purged);
    PurgeLaws(s.cache, purged);
    if r < |s.requests| && VictimFits(c, s.requests[r], checked, victim) {
      ServeKeepsInFlight(s.(cache := c, now := purged), r, checked, inserted, victim, key);
    }
  }

  /** Nothing in flight is purged or evicted; only a retrying waiter on the same key replaces it. */
  lemma InFlightSurvives(s: Sys, a: Action, key: string)
    requires Inv(s) && key in InFlight(s.cache)
    ensures var t := Apply(s, a);
            && key in t.cache.table
            && (t.cache.table[key] == s.cache.table[key]
                || (a.Retry? && a.r < |s.requests| && s.requests[a.r].key == key))
  {
    match a {
      case Begin(r, purged, checked, inserted, victim) =>
        BeginKeepsInFlight(s, r, purged, checked, inserted, victim, key);
      case Retry(r, at, victim) =>
        if r < |s.requests| && VictimOk(s.cache, victim) && s.requests[r].key != key {
          StartRunKeepsInFlight(s, s.cache, r, at, victim, key);
        }
      case _ =>
    }
  }

  /**
   A request that finds a live entry under its key, in flight or not yet expired, never runs: it
   waits, replays the recorded answer, or is refused, by fingerprint.
   */
  lemma LiveEntryDecides(s: Sys, r: nat, at: nat, purged: int, checked: int, inserted: int, victim: Option<string>)
    requires Inv(s) && r < |s.requests| && s.requests[r].phase.Arrived? && s.requests[r].key != ""
    requires s.now <= purged <= checked <= inserted
    requires s.requests[r].key in s.cache.table && s.cache.table[s.requests[r].key] == at < |s.cache.heap|
    requires !s.cache.heap[at].done || checked < s.cache.heap[at].expires
    ensures var t, e := DoBegin(s, r, purged, checked, inserted, victim), s.cache.heap[at];
            && t.cache.heap == s.cache.heap
            && t.requests == SetPhase(s.requests, r,
                 if e.fp != s.requests[r].fp then Refused(at)
                 else if !e.done then Waiting(at) else Replayed(at, e.answer))
  {
    var (c, q) := (Purge(s.cache, purged), s.requests[r]);
    assert Lookup(c, q.key) == Some(s.cache.heap[at]) && c.table[q.key] == at;
  }

  // ---- and when it does not ------------------------------------------------------------------

  lemma ExecSnoc(s: Sys, actions: seq<Action>, a: Action) returns (longer: seq<Action>)
    ensures longer == actions + [a] && Exec(s, longer) == Apply(Exec(s, actions), a)
  {
    longer := actions + [a];
    assert longer[..|actions|] == actions;
  }

  lemma FirstRuns(key: string, fp: string)
    requires key != ""
    ensures var q, c := Request(key, fp, Arrived), Cache(10, [Entry(key, fp, 0, false, NO_RESPONSE, 10, 0, 0)], map[key := 0]);
            Apply(Sys(Cache(10, [], map[]), [q, q, q], 0, History(0, false, false, false)), Begin(0, 0, 0, 0, None))
              == Sys(c, [q.(phase := Running(0)), q, q], 0, History(1, false, false, false))
  {
    var q, empty := Request(key, fp, Arrived), Cache(10, [], map[]);
    var c := Insert(empty, key, fp, 0, 0);
    assert InFlight(c) == {key};
    assert Purge(empty, 0).table == map[];
    assert Purge(empty, 0) == empty && Decide(empty, key, fp, 0) == Run(empty) && MakeRoom(empty, None) == empty;
    assert c == Cache(10, [Entry(key, fp, 0, false, NO_RESPONSE, 10, 0, 0)], map[key := 0]);
  }

  /** One request runs from 0 to completion at 0 with an expiry of 10, while two more wait for it. */
  lemma TwoWait(key: string, fp: string) returns (actions: seq<Action>)
    requires key != ""
    ensures Exec(Init(10, 0), actions) ==
      Sys(Cache(10, [Entry(key, fp, 0, true, Response(200, "", ""), 10, 0, 1)], map[key := 0]),
          [Request(key, fp, Ran(0, Captured(200, "", "", ""), 0)), Request(key, fp, Waiting(0)), Request(key, fp, Waiting(0))],
          0, History(1, false, false, false))
  {
    actions := ExecSnoc(Init(10, 0), [], Arrive(key, fp));
    actions := ExecSnoc(Init(10, 0), actions, Arrive(key, fp));
    actions := ExecSnoc(Init(10, 0), actions, Arrive(key, fp));
    var q := Request(key, fp, Arrived);
    assert Exec(Init(10, 0), actions) == Sys(Cache(10, [], map[]), [q, q, q], 0, History(0, false, false, false));
    actions := ExecSnoc(Init(10, 0), actions, Begin(0, 0, 0, 0, None));
    var c := Cache(10, [Entry(key, fp, 0, false, NO_RESPONSE, 10, 0, 0)], map[key := 0]);
    FirstRuns(key, fp);
    assert Exec(Init(10, 0), actions) == Sys(c, [q.(phase := Running(0)), q, q], 0, History(1, false, false, false));
    actions := ExecSnoc(Init(10, 0), actions, Begin(1, 0, 0, 0, None));
    assert Purge(c, 0).table == c.table;
    actions := ExecSnoc(Init(10, 0), actions, Begin(2, 0, 0, 0, None));
    actions := ExecSnoc(Init(10, 0), actions, Complete(0, Captured(200, "", "", ""), 0));
  }

  /**
   It does happen: two waiters that wake once the entry has expired both run, at the same time,
   because the second does not look at the table again before inserting.
   */
  lemma LateWaitersRunTogether(key: string, fp: string) returns (actions: seq<Action>)
    requires key != ""
    ensures var s := Exec(Init(10, 0), actions);
            && |s.requests| == 3 && |s.cache.heap| == 3
            && s.requests[1] == Request(key, fp, Running(1)) && s.requests[2] == Request(key, fp, Running(2))
            && s.history.overtaken && !s.history.evicted && !OneAtATime(s.cache.heap)
  {
    actions := TwoWait(key, fp);
    actions := ExecSnoc(Init(10, 0), actions, Wake(1, 10));
    actions := ExecSnoc(Init(10, 0), actions, Wake(2, 10));
    actions := ExecSnoc(Init(10, 0), actions, Retry(1, 10, None));
    actions := ExecSnoc(Init(10, 0), actions, Retry(2, 10, None));
    var s := Exec(Init(10, 0), actions);
    assert s.cache.heap[1].key == s.cache.heap[2].key && !s.cache.heap[1].done;
  }
}
