/**
 Single runs when entries may be evicted. A full table forgets its oldest finished entry even when
 that entry has not expired, and the key then runs again; with that second way of starting over a
 live entry, the condition for single runs is exact in every interleaving.
 */
module IdempotencyEvict {
  import opened Wrappers
  import opened Text
  import opened Idempotency
  import opened IdempotencyOnce

  /** Among finished entries there is one that none expires before. */
  lemma {:induction false} SomeVictim(c: Cache, keys: set<string>) returns (victim: string)
    requires keys != {} && forall k | k in keys :: Done(c, k)
    ensures victim in keys && Done(c, victim)
    ensures forall k | k in keys :: Done(c, k) && Lookup(c, victim).value.expires <= Lookup(c, k).value.expires
    decreases |keys|
  {
    var first :| first in keys;
    victim := first;
    var rest := keys - {first};
    assert keys == rest + {first};
    if rest != {} {
      var other := SomeVictim(c, rest);
      if Lookup(c, other).value.expires < Lookup(c, first).value.expires {
        victim := other;
      }
    }
  }

  /** Nothing in the table has expired. */
  ghost predicate NoneExpired(c: Cache, now: int) {
    forall k | k in c.table :: !Expired(c, k, now)
  }

  /** Request r has arrived with a key that is not in the table, where nothing has expired. */
  ghost predicate NewKey(s: Sys, r: nat) {
    && NoneExpired(s.cache, s.now) && r < |s.requests| && s.requests[r].phase.Arrived?
    && s.requests[r].key != "" && s.requests[r].key !in s.cache.table
  }

  /** Such a request runs, whatever the heap still holds of its key. */
  lemma NewKeyRuns(s: Sys, r: nat, victim: Option<string>)
    requires NewKey(s, r) && VictimOk(s.cache, victim)
    ensures DoBegin(s, r, s.now, s.now, s.now, victim) == StartRun(s, s.cache, r, s.now, victim)
  {
    var (c, q) := (s.cache, s.requests[r]);
    assert Purge(c, s.now).table == c.table;
    assert Purge(c, s.now) == c && s.(cache := c, now := s.now) == s;
    assert Decide(c, q.key, q.fp, s.now) == Run(c);
  }

  /** In a full table it pushes the victim out. */
  lemma NewKeyEvicts(s: Sys, r: nat, victim: string)
    requires NewKey(s, r) && |s.cache.table| >= MAX_ENTRIES && MayEvict(s.cache, Some(victim))
    ensures var q, t := s.requests[r], StartRun(s, s.cache, r, s.now, Some(victim));
            && t.history.evicted && t.history.overtaken == s.history.overtaken && t.now == s.now
            && t.cache.heap == Insert(s.cache, q.key, q.fp, r, s.now).heap
            && t.cache.table == (s.cache.table - {victim})[q.key := |s.cache.heap|]
  {
    assert victim !in MakeRoom(s.cache, Some(victim)).table;
  }

  /** If the heap still holds a live entry of that key, two runs of it now overlap, and no retry was involved. */
  lemma ForgottenRunOverlaps(s: Sys, r: nat, victim: Option<string>, e: nat)
    requires NewKey(s, r) && e < |s.cache.heap| && s.cache.heap[e].key == s.requests[r].key
    requires !s.cache.heap[e].done || s.now < s.cache.heap[e].expires
    ensures var t := StartRun(s, s.cache, r, s.now, victim);
            && !OneAtATime(t.cache.heap) && t.history.overtaken == s.history.overtaken
            && (s.history.evicted ==> t.history.evicted)
  {
    var heap, f := StartRun(s, s.cache, r, s.now, victim).cache.heap, |s.cache.heap|;
    assert heap[e] == s.cache.heap[e] && heap[f].key == s.requests[r].key && heap[f].started == s.now;
  }

  // ---- a run that fills the table ------------------------------------------------------------

  /** Entry i is a finished answer under the key i, to expire at 10. */
  ghost predicate FilledHeap(heap: seq<Entry>, n: nat) {
    |heap| == n && forall i | 0 <= i < n :: heap[i].done && heap[i].expires == 10 && heap[i].key == Decimal(i)
  }

  ghost predicate FilledTable(table: map<string, nat>, n: nat) {
    && |table| == n
    && (forall k | k in table :: table[k] < n && Decimal(table[k]) == k)
    && (forall i: nat | i < n :: Decimal(i) in table)
  }

  /** n requests with the keys "0", "1", … have each run and completed at time 0. */
  ghost predicate Filled(s: Sys, n: nat) {
    && s.now == 0 && s.cache.ttl == 10 && !s.history.evicted && !s.history.overtaken
    && |s.requests| == n && FilledHeap(s.cache.heap, n) && FilledTable(s.cache.table, n)
  }

  lemma DecimalsDiffer(i: nat, j: nat)
    requires Decimal(i) == Decimal(j)
    ensures i == j
  {
    ValueOfDecimal(i);
    ValueOfDecimal(j);
  }

  lemma NextKeyIsNew(table: map<string, nat>, n: nat)
    requires FilledTable(table, n)
    ensures Decimal(n) !in table
  {
    if Decimal(n) in table {
      DecimalsDiffer(n, table[Decimal(n)]);
    }
  }

  /** Everything in a filled table is finished and expires at 10. */
  lemma FilledEntry(c: Cache, n: nat, k: string)
    requires FilledHeap(c.heap, n) && FilledTable(c.table, n) && k in c.table
    ensures Done(c, k) && Lookup(c, k).value.expires == 10
  {
    assert c.heap[c.table[k]].done;
  }

  lemma FilledIsUnexpired(c: Cache, n: nat)
    requires FilledHeap(c.heap, n) && FilledTable(c.table, n)
    ensures NoneExpired(c, 0)
  {
    forall k | k in c.table ensures !Expired(c, k, 0) {
      FilledEntry(c, n, k);
    }
  }

  lemma FillHeap(heap: seq<Entry>, n: nat, e: Entry)
    requires FilledHeap(heap, n) && e.done && e.expires == 10 && e.key == Decimal(n)
    ensures FilledHeap(heap + [e], n + 1)
  {
  }

  lemma OneMoreKey(table: map<string, nat>, key: string, n: nat)
    requires key !in table
    ensures |table[key := n]| == |table| + 1
  {
    assert table[key := n].Keys == table.Keys + {key};
  }

  lemma FillTableEntry(table: map<string, nat>, n: nat)
    requires FilledTable(table, n)
    ensures FilledTable(table[Decimal(n) := n], n + 1)
  {
    NextKeyIsNew(table, n);
    OneMoreKey(table, Decimal(n), n);
    forall i: nat | i < n + 1 ensures Decimal(i) in table[Decimal(n) := n] {
      assert i == n || Decimal(i) in table;
    }
  }

  ghost function AfterArrival(s: Sys, n: nat): Sys { Apply(s, Arrive(Decimal(n), "")) }

  ghost function AfterBegin(s: Sys, n: nat): Sys {
    Apply(AfterArrival(s, n), Begin(n, 0, 0, 0, None))
  }

  ghost function AfterAnswer(s: Sys, n: nat): Sys {
    Apply(AfterBegin(s, n), Complete(n, Captured(200, "", "", ""), 0))
  }

  lemma FillArrives(s: Sys, n: nat)
    requires Filled(s, n)
    ensures var t := AfterArrival(s, n); NewKey(t, n) && t == s.(requests := s.requests + [Request(Decimal(n), "", Arrived)])
  {
    var t := AfterArrival(s, n);
    assert t.requests[n] == Request(Decimal(n), "", Arrived);
    NextKeyIsNew(s.cache.table, n);
    FilledIsUnexpired(s.cache, n);
  }

  lemma FillBegins(s: Sys, n: nat)
    requires Filled(s, n) && n < MAX_ENTRIES
    ensures var u := AfterBegin(s, n);
            && u.now == 0 && u.cache == Insert(s.cache, Decimal(n), "", n, 0) && |u.requests| == n + 1
            && u.requests[n].phase == Running(n) && !u.history.evicted && !u.history.overtaken
  {
    var t := AfterArrival(s, n);
    FillArrives(s, n);
    NewKeyRuns(t, n, None);
    assert t.requests[n] == Request(Decimal(n), "", Arrived) && MakeRoom(t.cache, None) == t.cache;
  }

  /** Completing the run of the last entry finishes that entry and leaves the rest. */
  lemma LastCompletes(u: Sys, heap: seq<Entry>, x: Entry) returns (e: Entry)
    requires u.cache.heap == heap + [x] && u.now == 0 && u.cache.ttl == 10
    requires |u.requests| == |heap| + 1 && u.requests[|heap|].phase == Running(|heap|)
    ensures var t := Apply(u, Complete(|heap|, Captured(200, "", "", ""), 0));
            && t.cache.heap == heap + [e] && e.done && e.expires == 10 && e.key == x.key
            && t.cache.table == u.cache.table && t.cache.ttl == 10 && t.now == 0
            && |t.requests| == |u.requests| && t.history == u.history
  {
    e := x.(done := true, answer := Response(200, "", ""), expires := 10, closes := x.closes + 1);
  }

  lemma FillStep(s: Sys, n: nat)
    requires Filled(s, n) && n < MAX_ENTRIES
    ensures Filled(AfterAnswer(s, n), n + 1)
  {
    FillBegins(s, n);
    var u := AfterBegin(s, n);
    var e := LastCompletes(u, s.cache.heap, Entry(Decimal(n), "", n, false, NO_RESPONSE, 10, 0, 0));
    FillHeap(s.cache.heap, n, e);
    FillTableEntry(s.cache.table, n);
  }

  lemma FillActions(start: Sys, actions: seq<Action>, n: nat) returns (longer: seq<Action>)
    ensures Exec(start, longer) == AfterAnswer(Exec(start, actions), n)
  {
    longer := ExecSnoc(start, actions, Arrive(Decimal(n), ""));
    longer := ExecSnoc(start, longer, Begin(n, 0, 0, 0, None));
    longer := ExecSnoc(start, longer, Complete(n, Captured(200, "", "", ""), 0));
  }

  lemma FillOneMore(start: Sys, actions: seq<Action>, n: nat) returns (longer: seq<Action>)
    requires Filled(Exec(start, actions), n) && n < MAX_ENTRIES
    ensures Filled(Exec(start, longer), n + 1)
  {
    FillStep(Exec(start, actions), n);
    longer := FillActions(start, actions, n);
  }

  lemma {:induction false} FillTheTable(n: nat) returns (actions: seq<Action>)
    requires n <= MAX_ENTRIES
    ensures Filled(Exec(Init(10, 0), actions), n)
  {
    actions := [];
    if n > 0 {
      actions := FillTheTable(n - 1);
      actions := FillOneMore(Init(10, 0), actions, n - 1);
    }
  }

  /** In a filled table any entry may be the victim: all expire together. */
  lemma FullTableEvicts(c: Cache)
    requires FilledHeap(c.heap, MAX_ENTRIES) && FilledTable(c.table, MAX_ENTRIES)
    ensures MayEvict(c, Some(Decimal(0)))
  {
    FilledEntry(c, MAX_ENTRIES, Decimal(0));
    forall k | k in c.table && Done(c, k)
      ensures Lookup(c, k).value.expires == 10
    {
      FilledEntry(c, MAX_ENTRIES, k);
    }
  }

  /** A full table of unexpired answers, and two requests: one with a new key, one with the key "0". */
  ghost predicate BothAsk(s: Sys) {
    var n := MAX_ENTRIES;
    && s.now == 0 && s.cache.ttl == 10 && !s.history.overtaken
    && FilledHeap(s.cache.heap, n) && FilledTable(s.cache.table, n)
    && |s.requests| == n + 2
    && s.requests[n] == Request(Decimal(n), "", Arrived) && s.requests[n + 1] == Request(Decimal(0), "", Arrived)
  }

  lemma BothArrive(s: Sys)
    requires Filled(s, MAX_ENTRIES)
    ensures BothAsk(Apply(Apply(s, Arrive(Decimal(MAX_ENTRIES), "")), Arrive(Decimal(0), "")))
  {
  }

  /** The new key's run evicted the answer for "0", which is asked for again. */
  ghost predicate Forgotten(t: Sys) {
    && NewKey(t, MAX_ENTRIES + 1) && t.history.evicted && !t.history.overtaken && t.now == 0
    && |t.cache.heap| > 0 && t.cache.heap[0].key == t.requests[MAX_ENTRIES + 1].key && t.cache.heap[0].expires == 10
  }

  lemma NewKeyForgets(s: Sys)
    requires BothAsk(s) && Decimal(0) != ""
    ensures Forgotten(Apply(s, Begin(MAX_ENTRIES, 0, 0, 0, Some(Decimal(0)))))
  {
    var n, victim := MAX_ENTRIES, Some(Decimal(0));
    NextKeyIsNew(s.cache.table, n);
    FilledIsUnexpired(s.cache, n);
    FullTableEvicts(s.cache);
    NewKeyRuns(s, n, victim);
    NewKeyEvicts(s, n, Decimal(0));
    var t := StartRun(s, s.cache, n, 0, victim);
    if Decimal(n) == Decimal(0) { DecimalsDiffer(n, 0); }
    AfterEviction(s.cache, t.cache);
    assert t.cache.heap[0] == s.cache.heap[0];
  }

  lemma AfterEviction(c: Cache, d: Cache)
    requires FilledHeap(c.heap, MAX_ENTRIES) && FilledTable(c.table, MAX_ENTRIES)
    requires d.heap == Insert(c, Decimal(MAX_ENTRIES), "", MAX_ENTRIES, 0).heap
    requires d.table == (c.table - {Decimal(0)})[Decimal(MAX_ENTRIES) := MAX_ENTRIES]
    ensures NoneExpired(d, 0)
  {
    forall k | k in d.table ensures !Expired(d, k, 0) {
      if k != Decimal(MAX_ENTRIES) {
        FilledEntry(c, MAX_ENTRIES, k);
        assert d.heap[c.table[k]] == c.heap[c.table[k]];
      }
    }
  }

  /** Whatever the table holds, there is a victim it may evict. */
  lemma VictimExists(c: Cache) returns (victim: Option<string>)
    ensures VictimOk(c, victim)
  {
    var finished := set k | k in c.table && Done(c, k);
    if finished == {} {
      victim := None;
      assert forall k | k in c.table :: k !in finished;
    } else {
      var v := SomeVictim(c, finished);
      victim := Some(v);
    }
  }

  /**
   The table full of unexpired answers, a new key evicts that of "0", and "0" asked again runs again:
   an overlap without any retry.
   */
  lemma EvictionRunsTogether() returns (actions: seq<Action>)
    ensures var s := Exec(Init(10, 0), actions);
            s.history.evicted && !s.history.overtaken && !OneAtATime(s.cache.heap)
  {
    var n, init := MAX_ENTRIES, Init(10, 0);
    actions := FillTheTable(n);
    BothArrive(Exec(init, actions));
    actions := ExecSnoc(init, actions, Arrive(Decimal(n), ""));
    actions := ExecSnoc(init, actions, Arrive(Decimal(0), ""));
    NewKeyForgets(Exec(init, actions));
    actions := ExecSnoc(init, actions, Begin(n, 0, 0, 0, Some(Decimal(0))));
    var t := Exec(init, actions);
    var second := VictimExists(t.cache);
    NewKeyRuns(t, n + 1, second);
    ForgottenRunOverlaps(t, n + 1, second, 0);
    actions := ExecSnoc(init, actions, Begin(n + 1, 0, 0, 0, second));
  }

  // ---- exactly, with evictions ----------------------------------------------------------------

  /** Some entry of x's key, in the table or forgotten, is in flight or unexpired when x starts. */
  ghost predicate Overlapped(heap: seq<Entry>, x: Entry) {
    exists e | 0 <= e < |heap| :: heap[e].key == x.key && !(heap[e].done && heap[e].expires <= x.started)
  }

  /** The step starts a run while an earlier run of its key is in flight or its answer unexpired. */
  ghost predicate StartsOver(s: Sys, a: Action) {
    var before, after := s.cache.heap, Apply(s, a).cache.heap;
    |after| == |before| + 1 && Overlapped(before, after[|before|])
  }

  ghost predicate SomeoneStartsOver(s: Sys, actions: seq<Action>) {
    actions != [] &&
    var init := actions[..|actions| - 1];
    SomeoneStartsOver(s, init) || StartsOver(Exec(s, init), actions[|actions| - 1])
  }

  /** A step adds at most one entry; only completing a run changes one, and that one was in flight. */
  ghost predicate Extends(before: seq<Entry>, after: seq<Entry>) {
    && |before| <= |after| <= |before| + 1
    && (|before| < |after| ==> after[..|before|] == before)
    && forall e | 0 <= e < |before| ::
         after[e] == before[e] || (!before[e].done && after[e].key == before[e].key && after[e].started == before[e].started)
  }

  lemma StartRunExtends(s: Sys, c: Cache, r: nat, at: int, victim: Option<string>)
    requires r < |s.requests| && c.heap == s.cache.heap
    ensures Extends(s.cache.heap, StartRun(s, c, r, at, victim).cache.heap)
  {
    var after := StartRun(s, c, r, at, victim).cache.heap;
    assert after[..|c.heap|] == c.heap;
  }

  lemma BeginExtends(s: Sys, r: nat, purged: int, checked: int, inserted: int, victim: Option<string>)
    ensures Extends(s.cache.heap, DoBegin(s, r, purged, checked, inserted, victim).cache.heap)
  {
    var t, c := DoBegin(s, r, purged, checked, inserted, victim), Purge(s.cache, purged);
    if t.cache.heap != s.cache.heap {
      var p, d := s.(cache := c, now := purged), Decide(c, s.requests[r].key, s.requests[r].fp, checked);
      StartRunExtends(p, d.rest, r, inserted, victim);
    }
  }

  lemma CompleteExtends(s: Sys, r: nat, got: Captured, at: int)
    requires Inv(s)
    ensures Extends(s.cache.heap, DoComplete(s, r, got, at).cache.heap)
  {
    if r < |s.requests| && s.requests[r].phase.Running? {
      assert PhaseOk(s.cache.heap, r, s.requests[r]);
    }
  }

  lemma StepExtends(s: Sys, a: Action)
    requires Inv(s)
    ensures Extends(s.cache.heap, Apply(s, a).cache.heap)
  {
    match a {
      case Begin(r, purged, checked, inserted, victim) => BeginExtends(s, r, purged, checked, inserted, victim);
      case Retry(r, at, victim) =>
        if DoRetry(s, r, at, victim) != s { StartRunExtends(s, s.cache, r, at, victim); }
      case Complete(r, got, at) => CompleteExtends(s, r, got, at);
      case _ =>
    }
  }

  /** Runs that were alone stay so unless a new one overlaps. */
  lemma ExtensionIsAlone(before: seq<Entry>, after: seq<Entry>)
    requires Extends(before, after) && OneAtATime(before)
    ensures OneAtATime(after) <==> !(|after| == |before| + 1 && Overlapped(before, after[|before|]))
  {
    if |after| == |before| + 1 {
      var f := |before|;
      assert forall e | 0 <= e < f :: after[e] == before[e];
      if Overlapped(before, after[f]) {
        var e :| 0 <= e < f && before[e].key == after[f].key && !(before[e].done && before[e].expires <= after[f].started);
        assert after[e].key == after[f].key;
      }
    }
  }

  /**
   In every interleaving, evictions and late waiters included: of every two runs of one key the
   earlier had completed, and its entry expired, before the later started, if and only if no run
   started while an entry of its key, in the table or forgotten by it, was in flight or unexpired.
   */
  lemma {:induction false} RunsAreAloneIff(ttl: int, now: int, actions: seq<Action>)
    requires ttl > 0
    ensures OneAtATime(Exec(Init(ttl, now), actions).cache.heap) <==> !SomeoneStartsOver(Init(ttl, now), actions)
  {
    if actions != [] {
      var n := |actions| - 1;
      var s := Exec(Init(ttl, now), actions[..n]);
      RunsAreAloneIff(ttl, now, actions[..n]);
      EveryInterleavingIsSound(ttl, now, actions[..n]);
      OvertakenRunsOverlap(ttl, now, actions[..n]);
      StepIsAlone(s, actions[n]);
    }
  }

  lemma StepIsAlone(s: Sys, a: Action)
    requires Inv(s) && OverlapKept(s)
    ensures OneAtATime(Apply(s, a).cache.heap) <==> OneAtATime(s.cache.heap) && !StartsOver(s, a)
  {
    if OneAtATime(s.cache.heap) {
      StepExtends(s, a);
      ExtensionIsAlone(s.cache.heap, Apply(s, a).cache.heap);
    } else {
      StepMovesOn(s, a);
      OverlapStays(s, Apply(s, a));
    }
  }

  /** The first section does not run a key whose entry in the table is in flight or unexpired. */
  lemma BeginSeesTheEntry(s: Sys, r: nat, purged: int, checked: int, inserted: int, victim: Option<string>, e: nat)
    requires e < |s.cache.heap| && AtItsKey(s.cache, e)
    requires |DoBegin(s, r, purged, checked, inserted, victim).cache.heap| == |s.cache.heap| + 1
    requires r < |s.requests| && s.requests[r].key == s.cache.heap[e].key
    ensures s.cache.heap[e].done && s.cache.heap[e].expires <= inserted
  {
    var c, q := Purge(s.cache, purged), s.requests[r];
    assert s.now <= purged <= checked <= inserted;
    if q.key in c.table {
      assert Lookup(c, q.key) == Some(s.cache.heap[e]);
      assert Decide(c, q.key, q.fp, checked).Run?;
    } else {
      assert Expired(s.cache, q.key, purged);
    }
  }

  lemma BeginStarts(s: Sys, r: nat, purged: int, checked: int, inserted: int, victim: Option<string>)
    requires |DoBegin(s, r, purged, checked, inserted, victim).cache.heap| == |s.cache.heap| + 1
    ensures var x := DoBegin(s, r, purged, checked, inserted, victim).cache.heap[|s.cache.heap|];
            r < |s.requests| && x.key == s.requests[r].key && x.started == inserted
  {
    var c, q := Purge(s.cache, purged), s.requests[r];
    assert Decide(c, q.key, q.fp, checked).Run?;
  }

  /** The run a step starts over an entry of the table is an overtaking retry. */
  lemma OnlyRetriesOvertake(s: Sys, a: Action, e: nat)
    requires Inv(s) && |Apply(s, a).cache.heap| == |s.cache.heap| + 1 && e < |s.cache.heap| && AtItsKey(s.cache, e)
    requires var (old_, x) := (s.cache.heap[e], Apply(s, a).cache.heap[|s.cache.heap|]);
             old_.key == x.key && !(old_.done && old_.expires <= x.started)
    ensures Overtakes(s, a)
  {
    match a {
      case Begin(r, purged, checked, inserted, victim) =>
        BeginStarts(s, r, purged, checked, inserted, victim);
        BeginSeesTheEntry(s, r, purged, checked, inserted, victim, e);
      case _ =>
    }
  }

  /** There are two ways to start over a live entry: a retry that does not look, or an entry the table forgot. */
  lemma StartingOverMeans(s: Sys, a: Action) returns (e: nat)
    requires Inv(s) && StartsOver(s, a)
    ensures e < |s.cache.heap| && (Overtakes(s, a) || !AtItsKey(s.cache, e))
    ensures var x := Apply(s, a).cache.heap[|s.cache.heap|];
            s.cache.heap[e].key == x.key && !(s.cache.heap[e].done && s.cache.heap[e].expires <= x.started)
  {
    e := WhichOverlaps(s.cache.heap, Apply(s, a).cache.heap[|s.cache.heap|]);
    if AtItsKey(s.cache, e) {
      OnlyRetriesOvertake(s, a, e);
    }
  }

  lemma WhichOverlaps(heap: seq<Entry>, x: Entry) returns (e: nat)
    requires Overlapped(heap, x)
    ensures e < |heap| && heap[e].key == x.key && !(heap[e].done && heap[e].expires <= x.started)
  {
    e :| 0 <= e < |heap| && heap[e].key == x.key && !(heap[e].done && heap[e].expires <= x.started);
  }
}
