/**
 What clients are told: a replay repeats what the run of its entry produced, only in time, and only
 to the same request; a request that finds nothing live under its key runs.
 */
module IdempotencyAnswers {
  import opened Wrappers
  import opened Idempotency
  import opened IdempotencyOnce
  import opened IdempotencyEvict

  /** The answer is what the run produced: status 200 if it set none, and the type from the header if it set none. */
  ghost predicate Tells(answer: Response, got: Captured) {
    && answer.body == got.body
    && answer.status == (if got.status != 0 then got.status else 200)
    && answer.contentType == (if got.contentType != "" then got.contentType else got.header)
  }

  /** The owner of entry e has run it, the entry tells what came out, and expires a lifetime later. */
  ghost predicate ToldBy(x: Entry, e: nat, requests: seq<Request>, ttl: int) {
    && x.owner < |requests| && requests[x.owner].phase.Ran?
    && var ran := requests[x.owner].phase;
       ran.entry == e && Tells(x.answer, ran.got) && x.expires == ran.at + ttl
  }

  /** So it is for every finished entry, and an unfinished one expires a lifetime after it started. */
  ghost predicate AllTold(s: Sys) {
    forall e | 0 <= e < |s.cache.heap| ::
      if s.cache.heap[e].done then ToldBy(s.cache.heap[e], e, s.requests, s.cache.ttl)
      else s.cache.heap[e].expires == s.cache.heap[e].started + s.cache.ttl
  }

  /** What has run stays as it is. */
  ghost predicate RunsStay(before: seq<Request>, after: seq<Request>) {
    |before| <= |after| && forall r | 0 <= r < |before| && before[r].phase.Ran? :: after[r] == before[r]
  }

  lemma BeginRunsStay(s: Sys, r: nat, purged: int, checked: int, inserted: int, victim: Option<string>)
    ensures RunsStay(s.requests, DoBegin(s, r, purged, checked, inserted, victim).requests)
  {
  }

  lemma StepRunsStay(s: Sys, a: Action)
    ensures RunsStay(s.requests, Apply(s, a).requests)
  {
    if a.Begin? { BeginRunsStay(s, a.r, a.purged, a.checked, a.inserted, a.victim); }
  }

  /** Steps other than completion add at most one entry, fresh and in flight, and change none. */
  lemma StartRunIsFresh(s: Sys, c: Cache, r: nat, at: int, victim: Option<string>)
    requires r < |s.requests| && c.heap == s.cache.heap && c.ttl == s.cache.ttl
    ensures var t := StartRun(s, c, r, at, victim);
            && |t.cache.heap| == |s.cache.heap| + 1 && t.cache.heap[..|s.cache.heap|] == s.cache.heap
            && var x := t.cache.heap[|s.cache.heap|];
               !x.done && x.expires == x.started + s.cache.ttl && t.cache.ttl == s.cache.ttl
  {
  }

  ghost predicate AddsFresh(s: Sys, t: Sys) {
    && t.cache.ttl == s.cache.ttl && |s.cache.heap| <= |t.cache.heap| <= |s.cache.heap| + 1
    && t.cache.heap[..|s.cache.heap|] == s.cache.heap
    && (|t.cache.heap| == |s.cache.heap| + 1 ==>
          var x := t.cache.heap[|s.cache.heap|]; !x.done && x.expires == x.started + s.cache.ttl)
  }

  lemma ServeAddsFresh(s: Sys, r: nat, checked: int, inserted: int, victim: Option<string>)
    requires r < |s.requests| && VictimFits(s.cache, s.requests[r], checked, victim)
    ensures AddsFresh(s, Serve(s, r, checked, inserted, victim))
  {
    var d := Decide(s.cache, s.requests[r].key, s.requests[r].fp, checked);
    if d.Run? { StartRunIsFresh(s, d.rest, r, inserted, victim); }
  }

  lemma BeginAddsFresh(s: Sys, r: nat, purged: int, checked: int, inserted: int, victim: Option<string>)
    ensures AddsFresh(s, DoBegin(s, r, purged, checked, inserted, victim))
  {
    var t := DoBegin(s, r, purged, checked, inserted, victim);
    if t != s && s.requests[r].key != "" {
      var p := s.(cache := Purge(s.cache, purged), now := purged);
      ServeAddsFresh(p, r, checked, inserted, victim);
      assert t == Serve(p, r, checked, inserted, victim);
    }
  }

  lemma OtherStepsAddFresh(s: Sys, a: Action)
    requires !a.Complete?
    ensures AddsFresh(s, Apply(s, a))
  {
    match a {
      case Begin(r, purged, checked, inserted, victim) => BeginAddsFresh(s, r, purged, checked, inserted, victim);
      case Retry(r, at, victim) =>
        if DoRetry(s, r, at, victim) != s { StartRunIsFresh(s, s.cache, r, at, victim); }
      case _ =>
    }
  }

  lemma FreshKeepsTold(s: Sys, t: Sys)
    requires AllTold(s) && AddsFresh(s, t) && RunsStay(s.requests, t.requests)
    ensures AllTold(t)
  {
    forall e | 0 <= e < |s.cache.heap|
      ensures t.cache.heap[e] == s.cache.heap[e]
    {
      assert t.cache.heap[..|s.cache.heap|][e] == s.cache.heap[e];
    }
  }

  lemma CompleteKeepsTold(s: Sys, r: nat, got: Captured, at: int)
    requires Inv(s) && AllTold(s)
    ensures AllTold(DoComplete(s, r, got, at))
  {
    var t := DoComplete(s, r, got, at);
    if t != s {
      var done := s.requests[r].phase.entry;
      assert PhaseOk(s.cache.heap, r, s.requests[r]);
      assert ToldBy(t.cache.heap[done], done, t.requests, t.cache.ttl);
      forall e | 0 <= e < |t.cache.heap| && e != done
        ensures t.cache.heap[e] == s.cache.heap[e]
        ensures s.cache.heap[e].done ==> ToldBy(s.cache.heap[e], e, t.requests, s.cache.ttl)
      {
        if s.cache.heap[e].done { assert ToldBy(s.cache.heap[e], e, s.requests, s.cache.ttl); }
      }
    }
  }

  lemma {:induction false} EveryAnswerIsTold(ttl: int, now: int, actions: seq<Action>)
    ensures AllTold(Exec(Init(ttl, now), actions))
  {
    if actions != [] {
      var n := |actions| - 1;
      var s := Exec(Init(ttl, now), actions[..n]);
      EveryAnswerIsTold(ttl, now, actions[..n]);
      EveryInterleavingIsSound(ttl, now, actions[..n]);
      StepKeepsTold(s, actions[n]);
    }
  }

  lemma StepKeepsTold(s: Sys, a: Action)
    requires Inv(s) && AllTold(s)
    ensures AllTold(Apply(s, a))
  {
    match a {
      case Complete(r, got, at) => CompleteKeepsTold(s, r, got, at);
      case _ =>
        OtherStepsAddFresh(s, a);
        StepRunsStay(s, a);
        FreshKeepsTold(s, Apply(s, a));
    }
  }

  /**
   In every interleaving a replayed client is told what one run of the same key and fingerprint
   produced: its body, its status or 200, its content type or its header.
   */
  lemma ReplaysTellTheRun(ttl: int, now: int, actions: seq<Action>, r: nat) returns (owner: nat)
    ensures var s := Exec(Init(ttl, now), actions);
            r < |s.requests| && s.requests[r].phase.Replayed? ==>
              && owner < |s.requests| && s.requests[owner].key == s.requests[r].key && s.requests[owner].fp == s.requests[r].fp
              && s.requests[owner].phase.Ran?
              && Tells(s.requests[r].phase.answer, s.requests[owner].phase.got)
  {
    var s := Exec(Init(ttl, now), actions);
    EveryInterleavingIsSound(ttl, now, actions);
    EveryAnswerIsTold(ttl, now, actions);
    owner := 0;
    if r < |s.requests| && s.requests[r].phase.Replayed? {
      var e := s.requests[r].phase.entry;
      assert PhaseOk(s.cache.heap, r, s.requests[r]);
      owner := s.cache.heap[e].owner;
      assert ToldBy(s.cache.heap[e], e, s.requests, s.cache.ttl);
      assert PhaseOk(s.cache.heap, owner, s.requests[owner]);
    }
  }

  // ---- when a client is answered, and when it runs -----------------------------------------------

  /** A woken waiter is answered exactly if its key's entry is finished, of its fingerprint and unexpired; else it retries. */
  lemma WakeAnswersIff(s: Sys, r: nat, at: int)
    requires Inv(s) && r < |s.requests| && s.requests[r].phase.Waiting? && s.now <= at
    requires s.cache.heap[s.requests[r].phase.on].done
    ensures var (q, c) := (s.requests[r], s.cache); var phase := DoWake(s, r, at).requests[r].phase;
            if q.key in c.table && var x := c.heap[c.table[q.key]]; x.done && x.fp == q.fp && at < x.expires
            then phase == Replayed(c.table[q.key], c.heap[c.table[q.key]].answer)
            else phase == Retrying
  {
    assert PhaseOk(s.cache.heap, r, s.requests[r]);
  }

  /** The request runs under a new entry, in flight, to expire a lifetime after it started. */
  ghost predicate RunsAnew(requests: seq<Request>, heap: seq<Entry>, ttl: int, r: nat, at: int, t: Sys)
    requires r < |requests|
  {
    && t.requests == SetPhase(requests, r, Running(|heap|))
    && t.cache.heap == heap + [Entry(requests[r].key, requests[r].fp, r, false, NO_RESPONSE, at + ttl, at, 0)]
    && requests[r].key in t.cache.table && t.cache.table[requests[r].key] == |heap|
  }

  /** Nothing under the key, or only a finished and expired entry. */
  ghost predicate Dead(c: Cache, key: string, at: int)
    requires Linked(c)
  {
    key in c.table ==> c.heap[c.table[key]].done && c.heap[c.table[key]].expires <= at
  }

  lemma StartsAnew(s: Sys, c: Cache, r: nat, at: int, victim: Option<string>) returns (t: Sys)
    requires r < |s.requests| && c.heap == s.cache.heap && c.ttl == s.cache.ttl
    ensures t == StartRun(s, c, r, at, victim) && RunsAnew(s.requests, s.cache.heap, s.cache.ttl, r, at, t)
  {
    t := StartRun(s, c, r, at, victim);
  }

  lemma ServeStarts(s: Sys, r: nat, checked: int, inserted: int, victim: Option<string>) returns (c: Cache)
    requires r < |s.requests| && VictimFits(s.cache, s.requests[r], checked, victim)
    requires Linked(s.cache) && Dead(s.cache, s.requests[r].key, checked)
    ensures c.heap == s.cache.heap && c.ttl == s.cache.ttl
    ensures Serve(s, r, checked, inserted, victim) == StartRun(s, c, r, inserted, victim)
  {
    c := Decide(s.cache, s.requests[r].key, s.requests[r].fp, checked).rest;
  }

  lemma BeginServes(s: Sys, r: nat, purged: int, checked: int, inserted: int, victim: Option<string>) returns (p: Sys)
    requires r < |s.requests| && s.requests[r].phase.Arrived? && s.requests[r].key != ""
    requires s.now <= purged <= checked <= inserted && VictimFits(Purge(s.cache, purged), s.requests[r], checked, victim)
    ensures p == s.(cache := Purge(s.cache, purged), now := purged)
    ensures DoBegin(s, r, purged, checked, inserted, victim) == Serve(p, r, checked, inserted, victim)
  {
    p := s.(cache := Purge(s.cache, purged), now := purged);
  }

  lemma PurgedIsDead(c: Cache, key: string, purged: int, checked: int)
    requires Linked(c) && Dead(c, key, checked)
    ensures Linked(Purge(c, purged)) && Dead(Purge(c, purged), key, checked)
  {
  }

  /** A request that finds only that runs at once. */
  lemma DeadKeyRuns(s: Sys, r: nat, purged: int, checked: int, inserted: int, victim: Option<string>) returns (t: Sys)
    requires Linked(s.cache) && r < |s.requests| && s.requests[r].phase.Arrived? && s.requests[r].key != ""
    requires s.now <= purged <= checked <= inserted && VictimFits(Purge(s.cache, purged), s.requests[r], checked, victim)
    requires Dead(s.cache, s.requests[r].key, checked)
    ensures t == DoBegin(s, r, purged, checked, inserted, victim) && RunsAnew(s.requests, s.cache.heap, s.cache.ttl, r, inserted, t)
  {
    var p := BeginServes(s, r, purged, checked, inserted, victim);
    PurgedIsDead(s.cache, s.requests[r].key, purged, checked);
    var c := ServeStarts(p, r, checked, inserted, victim);
    t := StartsAnew(p, c, r, inserted, victim);
  }

  /** Requests without a key, and only those, bypass the cache. */
  ghost predicate KeylessBypass(requests: seq<Request>) {
    forall r | 0 <= r < |requests| && !requests[r].phase.Arrived? :: requests[r].key == "" <==> requests[r].phase == Bypassed
  }

  lemma PhaseBypasses(requests: seq<Request>, r: nat, phase: Phase)
    requires KeylessBypass(requests) && r < |requests| && (requests[r].key == "" <==> phase == Bypassed)
    ensures KeylessBypass(SetPhase(requests, r, phase))
  {
  }

  lemma ServeSetsPhase(s: Sys, r: nat, checked: int, inserted: int, victim: Option<string>) returns (phase: Phase)
    requires r < |s.requests| && VictimFits(s.cache, s.requests[r], checked, victim)
    ensures Serve(s, r, checked, inserted, victim).requests == SetPhase(s.requests, r, phase) && phase != Bypassed
  {
    phase := Serve(s, r, checked, inserted, victim).requests[r].phase;
  }

  lemma BeginBypasses(s: Sys, r: nat, purged: int, checked: int, inserted: int, victim: Option<string>)
    requires KeylessBypass(s.requests)
    ensures KeylessBypass(DoBegin(s, r, purged, checked, inserted, victim).requests)
  {
    var t := DoBegin(s, r, purged, checked, inserted, victim);
    if t != s {
      if s.requests[r].key == "" {
        PhaseBypasses(s.requests, r, Bypassed);
      } else {
        var phase := ServeSetsPhase(s.(cache := Purge(s.cache, purged), now := purged), r, checked, inserted, victim);
        PhaseBypasses(s.requests, r, phase);
      }
    }
  }

  lemma {:induction false} KeylessRequestsBypass(ttl: int, now: int, actions: seq<Action>)
    ensures KeylessBypass(Exec(Init(ttl, now), actions).requests)
  {
    if actions != [] {
      var n := |actions| - 1;
      var s := Exec(Init(ttl, now), actions[..n]);
      KeylessRequestsBypass(ttl, now, actions[..n]);
      EveryInterleavingIsSound(ttl, now, actions[..n]);
      StepBypasses(s, actions[n]);
    }
  }

  lemma StepBypasses(s: Sys, a: Action)
    requires Inv(s) && KeylessBypass(s.requests)
    ensures KeylessBypass(Apply(s, a).requests)
  {
    match a {
      case Begin(r, purged, checked, inserted, victim) => BeginBypasses(s, r, purged, checked, inserted, victim);
      case _ =>
    }
  }
}
