/** The batching loop on its own, as the sequential code it is. FlushReplay interleaves it with replay. */
module FlushLoop {
  import opened Samples
  import opened Spool
  import opened FlushReplay
  import opened Wrappers

  /** A sample from the channel or a tick of the one-second timer; the end of the list is cancellation. */
  datatype Event = Take(sample: Sample) | Timer

  /** Written, spooled, or deliberately dropped: on a capacity halt, or because Enqueue failed. */
  datatype Fate = ToHistorian | ToSpool(name: string) | DropOnHalt | DropOnSpoolError

  /** The answers of the outside world to flush number i. */
  datatype World = World(answer: nat -> Answer, stamp: nat -> nat, write: nat -> WriteOutcome)

  ghost predicate DistinctStamps(w: World) {
    forall i: nat, j: nat | i != j :: w.stamp(i) != w.stamp(j)
  }

  function Taken(events: seq<Event>): seq<Sample> {
    if events == [] then []
    else
      var n := |events| - 1;
      if events[n].Take? then Taken(events[..n]) + [events[n].sample] else Taken(events[..n])
  }

  function Flat(batches: seq<Batch>): seq<Sample> {
    if batches == [] then [] else Flat(batches[..|batches| - 1]) + batches[|batches| - 1]
  }

  function HandedOut(log: seq<(Batch, Fate)>): (r: seq<Batch>)
    ensures |r| == |log| && forall i | 0 <= i < |r| :: r[i] == log[i].0
  {
    seq(|log|, i requires 0 <= i < |log| => log[i].0)
  }

  // ---- where batches end -----------------------------------------------------------------

  /** The first k batches are exactly the samples taken in the first t events. */
  ghost predicate Boundary(batches: seq<Batch>, k: nat, events: seq<Event>, t: nat) {
    k <= |batches| && t <= |events| && Flat(batches[..k]) == Taken(events[..t])
  }

  /** The t-th event was a tick. */
  ghost predicate IsTick(events: seq<Event>, t: nat) {
    0 < t <= |events| && events[t - 1].Timer?
  }

  /** At every tick everything taken so far has been handed out. */
  ghost predicate TicksFlush(batches: seq<Batch>, events: seq<Event>, n: nat) {
    forall t: nat | IsTick(events, t) && t <= n :: exists k :: Boundary(batches, k, events, t)
  }

  ghost predicate EndsAtTick(batches: seq<Batch>, j: nat, events: seq<Event>, n: nat) {
    exists t: nat | IsTick(events, t) && t <= n :: Boundary(batches, j + 1, events, t)
  }

  /** Batches are neither empty nor too long, and one that is not full ends at a tick. */
  ghost predicate WellCut(batches: seq<Batch>, events: seq<Event>, n: nat) {
    forall j | 0 <= j < |batches| ::
      0 < |batches[j]| <= FLUSH_AT && (|batches[j]| < FLUSH_AT ==> EndsAtTick(batches, j, events, n))
  }

  /** What the batches of a whole run are: all samples in order, cut at the ticks, when full, and at the end. */
  ghost predicate CutsOf(batches: seq<Batch>, events: seq<Event>) {
    && Flat(batches) == Taken(events)
    && TicksFlush(batches, events, |events|)
    && forall j | 0 <= j < |batches| ::
         && 0 < |batches[j]| <= 200
         && (|batches[j]| < 200 ==> j == |batches| - 1 || EndsAtTick(batches, j, events, |events|))
  }

  lemma BoundaryGrows(batches: seq<Batch>, b: Batch, k: nat, events: seq<Event>, t: nat)
    requires Boundary(batches, k, events, t)
    ensures Boundary(batches + [b], k, events, t)
  {
    assert (batches + [b])[..k] == batches[..k];
  }

  lemma TicksStillFlush(batches: seq<Batch>, b: Batch, events: seq<Event>, n: nat)
    requires n <= |events| && TicksFlush(batches, events, n)
    ensures TicksFlush(batches + [b], events, n)
  {
    forall t: nat | IsTick(events, t) && t <= n
      ensures exists k :: Boundary(batches + [b], k, events, t)
    {
      var k :| Boundary(batches, k, events, t);
      BoundaryGrows(batches, b, k, events, t);
    }
  }

  lemma EndsStayAtTicks(batches: seq<Batch>, b: Batch, j: nat, events: seq<Event>, n: nat)
    requires n <= |events| && EndsAtTick(batches, j, events, n)
    ensures EndsAtTick(batches + [b], j, events, n)
  {
    var t: nat :| IsTick(events, t) && t <= n && Boundary(batches, j + 1, events, t);
    BoundaryGrows(batches, b, j + 1, events, t);
  }

  /** A full batch, or one cut at the tick that is the n-th event, keeps the batches well cut. */
  lemma OneMoreBatch(batches: seq<Batch>, b: Batch, events: seq<Event>, n: nat)
    requires n <= |events| && WellCut(batches, events, n) && 0 < |b| <= FLUSH_AT
    requires |b| == FLUSH_AT || EndsAtTick(batches + [b], |batches|, events, n)
    ensures WellCut(batches + [b], events, n)
  {
    forall j | 0 <= j < |batches| && |batches[j]| < FLUSH_AT
      ensures EndsAtTick(batches + [b], j, events, n)
    {
      EndsStayAtTicks(batches, b, j, events, n);
    }
  }

  lemma LaterTicks(batches: seq<Batch>, events: seq<Event>, n: nat)
    requires n < |events| && WellCut(batches, events, n)
    ensures WellCut(batches, events, n + 1)
  {
    forall j | 0 <= j < |batches| && |batches[j]| < FLUSH_AT
      ensures EndsAtTick(batches, j, events, n + 1)
    {
      var t: nat :| IsTick(events, t) && t <= n && Boundary(batches, j + 1, events, t);
    }
  }

  lemma AllHandedOut(batches: seq<Batch>, events: seq<Event>, n: nat)
    requires n <= |events| && Flat(batches) == Taken(events[..n])
    ensures Boundary(batches, |batches|, events, n)
  {
    assert batches[..|batches|] == batches;
  }

  lemma FlatSnoc(batches: seq<Batch>, b: Batch)
    ensures Flat(batches + [b]) == Flat(batches) + b
  {
    assert (batches + [b])[..|batches|] == batches;
  }

  /** The loop's account after n events: everything taken is handed out or in the buffer, and the cuts are right. */
  ghost predicate CutSoFar(batches: seq<Batch>, buf: Batch, events: seq<Event>, n: nat) {
    && n <= |events| && |buf| < FLUSH_AT && Flat(batches) + buf == Taken(events[..n])
    && TicksFlush(batches, events, n) && WellCut(batches, events, n)
  }

  lemma TakenNext(events: seq<Event>, n: nat)
    requires n < |events|
    ensures Taken(events[..n + 1]) == Taken(events[..n]) + if events[n].Take? then [events[n].sample] else []
  {
    assert events[..n + 1][..n] == events[..n];
  }

  /** A sample joins the buffer, or completes a full batch. */
  lemma CutTake(batches: seq<Batch>, buf: Batch, events: seq<Event>, n: nat)
    requires CutSoFar(batches, buf, events, n) && n < |events| && events[n].Take?
    ensures var longer := buf + [events[n].sample];
            if |longer| >= FLUSH_AT then CutSoFar(batches + [longer], [], events, n + 1)
            else CutSoFar(batches, longer, events, n + 1)
  {
    var longer := buf + [events[n].sample];
    TakenNext(events, n);
    LaterTicks(batches, events, n);
    assert !IsTick(events, n + 1);
    assert Flat(batches) + longer == Taken(events[..n + 1]);
    if |longer| >= FLUSH_AT {
      TicksStillFlush(batches, longer, events, n + 1);
      OneMoreBatch(batches, longer, events, n + 1);
      FlatSnoc(batches, longer);
    }
  }

  lemma TicksFlushNext(batches: seq<Batch>, events: seq<Event>, n: nat)
    requires TicksFlush(batches, events, n) && Boundary(batches, |batches|, events, n + 1)
    ensures TicksFlush(batches, events, n + 1)
  {
  }

  /** A tick with nothing in the buffer changes nothing. */
  lemma CutIdleTick(batches: seq<Batch>, events: seq<Event>, n: nat)
    requires CutSoFar(batches, [], events, n) && n < |events| && events[n].Timer?
    ensures CutSoFar(batches, [], events, n + 1)
  {
    TakenNext(events, n);
    LaterTicks(batches, events, n);
    assert Flat(batches) + [] == Flat(batches);
    AllHandedOut(batches, events, n + 1);
    TicksFlushNext(batches, events, n);
  }

  /** A tick hands out what is in the buffer. */
  lemma CutTick(batches: seq<Batch>, buf: Batch, events: seq<Event>, n: nat)
    requires CutSoFar(batches, buf, events, n) && n < |events| && events[n].Timer? && buf != []
    ensures CutSoFar(batches + [buf], [], events, n + 1)
  {
    var after := batches + [buf];
    TakenNext(events, n);
    FlatSnoc(batches, buf);
    assert Flat(after) + [] == Flat(after);
    AllHandedOut(after, events, n + 1);
    TicksStillFlush(batches, buf, events, n);
    TicksFlushNext(after, events, n);
    LaterTicks(batches, events, n);
    assert after[..|batches| + 1] == after;
    EndsHere(after, |batches|, events, n + 1);
    OneMoreBatch(batches, buf, events, n + 1);
  }

  lemma EndsHere(batches: seq<Batch>, j: nat, events: seq<Event>, t: nat)
    requires IsTick(events, t) && Boundary(batches, j + 1, events, t)
    ensures EndsAtTick(batches, j, events, t)
  {
  }

  /** The end of the events hands out the rest. */
  lemma CutEnd(batches: seq<Batch>, buf: Batch, events: seq<Event>)
    requires CutSoFar(batches, buf, events, |events|)
    ensures CutsOf(if buf == [] then batches else batches + [buf], events)
  {
    var after := if buf == [] then batches else batches + [buf];
    assert events[..|events|] == events;
    if buf != [] {
      FlatSnoc(batches, buf);
      TicksStillFlush(batches, buf, events, |events|);
      forall j | 0 <= j < |batches| && |batches[j]| < FLUSH_AT
        ensures EndsAtTick(after, j, events, |events|)
      {
        EndsStayAtTicks(batches, buf, j, events, |events|);
      }
    }
  }

  // ---- what happens to each batch ------------------------------------------------------------

  /** What happened to flush i is what its answer calls for, and a spooled batch is readable under its name. */
  ghost predicate Accounted(log: seq<(Batch, Fate)>, w: World, files: seq<File>, maxFiles: nat) {
    forall i | 0 <= i < |log| ::
      && 0 < |log[i].0| <= 200
      && (log[i].1 == ToHistorian <==> w.answer(i) == Accepted)
      && (log[i].1 == DropOnHalt <==> w.answer(i) == Halted)
      && (log[i].1 == DropOnSpoolError ==> w.write(i) != Complete || |files| >= maxFiles)
      && (log[i].1.ToSpool? ==>
            log[i].1.name == Name(w.stamp(i)) && Find(files, log[i].1.name) == Some(Stored(log[i].0)))
  }

  method Flush(batch: Batch, i: nat, w: World, sp: FileSpool) returns (fate: Fate)
    requires sp.Valid() && batch != []
    modifies sp
    ensures sp.Valid()
    ensures fate == ToHistorian <==> w.answer(i) == Accepted
    ensures fate == DropOnHalt <==> w.answer(i) == Halted
    ensures fate == DropOnSpoolError <==>
      w.answer(i) in {Busy, Failed} && (|old(sp.files)| >= sp.maxFiles || w.write(i) != Complete)
    ensures fate.ToSpool? ==> fate.name == Name(w.stamp(i)) && sp.files == Put(old(sp.files), fate.name, Stored(batch))
    ensures fate == ToHistorian || fate == DropOnHalt ==> sp.files == old(sp.files)
    ensures fate == DropOnSpoolError ==>
      sp.files == old(sp.files) ||
      (w.write(i) == FailsDirty && sp.files == Put(old(sp.files), Name(w.stamp(i)), Corrupt))
  {
    match w.answer(i) {
      case Accepted => fate := ToHistorian;
      case Halted => fate := DropOnHalt;
      case _ =>
        var ok := sp.Enqueue(batch, w.stamp(i), w.write(i));
        fate := if ok then ToSpool(Name(w.stamp(i))) else DropOnSpoolError;
    }
  }

  /**
   The batches handed out, in order, are exactly the samples taken, in order: nothing is lost,
   duplicated or reordered before the historian answers. A tick hands out everything taken before
   it, a batch is cut short only by a tick or the end, and each meets the fate its answer calls for.
   */
  method FlushLoop(events: seq<Event>, w: World, sp: FileSpool) returns (log: seq<(Batch, Fate)>)
    requires sp.Valid() && DistinctStamps(w)
    modifies sp
    ensures sp.Valid()
    ensures CutsOf(HandedOut(log), events)
    ensures Accounted(log, w, sp.files, sp.maxFiles)
  {
    log := [];
    var buf: Batch := [];
    for i := 0 to |events|
      invariant sp.Valid() && Accounted(log, w, sp.files, sp.maxFiles)
      invariant CutSoFar(HandedOut(log), buf, events, i)
    {
      match events[i] {
        case Take(s) =>
          CutTake(HandedOut(log), buf, events, i);
          buf := buf + [s];
          if |buf| >= FLUSH_AT {
            log := FlushAndLog(buf, log, w, sp);
            buf := [];
          }
        case Timer =>
          if buf == [] {
            CutIdleTick(HandedOut(log), events, i);
          } else {
            CutTick(HandedOut(log), buf, events, i);
          }
          if |buf| != 0 {
            log := FlushAndLog(buf, log, w, sp);
            buf := [];
          }
      }
    }
    CutEnd(HandedOut(log), buf, events);
    if |buf| != 0 {
      log := FlushAndLog(buf, log, w, sp);
    }
  }

  method FlushAndLog(batch: Batch, log: seq<(Batch, Fate)>, w: World, sp: FileSpool) returns (log': seq<(Batch, Fate)>)
    requires sp.Valid() && DistinctStamps(w) && Accounted(log, w, sp.files, sp.maxFiles) && 0 < |batch| <= FLUSH_AT
    modifies sp
    ensures sp.Valid() && Accounted(log', w, sp.files, sp.maxFiles) && HandedOut(log') == HandedOut(log) + [batch]
  {
    var n := |log|;
    ghost var before := sp.files;
    var fate := Flush(batch, n, w, sp);
    log' := log + [(batch, fate)];
    assert log'[..n] == log;
    forall i | 0 <= i < n && log[i].1.ToSpool?
      ensures Find(sp.files, log[i].1.name) == Some(Stored(log[i].0))
    {
      if Name(w.stamp(i)) == Name(w.stamp(n)) { NameInjective(w.stamp(i), w.stamp(n)); }
      PutLaws(before, Name(w.stamp(n)), Stored(batch), log[i].1.name);
      PutLaws(before, Name(w.stamp(n)), Corrupt, log[i].1.name);
    }
    PutLaws(before, Name(w.stamp(n)), Stored(batch), Name(w.stamp(n)));
  }

  /** An undisturbed flush is the protocol's steps: the answer, then opening and closing a spool file. */
  lemma FlushIsItsSteps(s: Sys, answer: Answer, stamp: nat, outcome: WriteOutcome)
    requires Disciplined(s) && s.flusher.Writing? && !HasName(s.files, Name(stamp))
    ensures var t := CloseFile(OpenFile(FlushAnswer(s, answer), stamp), outcome);
            var (b, name) := (s.flusher.batch, Name(stamp));
            var spools := answer in {Busy, Failed};
            var opens := spools && |s.files| < s.maxFiles;
            && t.flusher.Ready?
            && t.ledger.hist == (if answer == Accepted then s.ledger.hist + [b] else s.ledger.hist)
            && t.ledger.dropped ==
                 (if answer == Halted || (spools && (!opens || outcome != Complete)) then s.ledger.dropped + [b]
                  else s.ledger.dropped)
            && t.files == if !opens || outcome == FailsClean then s.files
                          else Put(s.files, name, if outcome == Complete then Stored(b) else Corrupt)
  {
    if answer in {Busy, Failed} && |s.files| < s.maxFiles {
      var u := OpenFile(FlushAnswer(s, answer), stamp);
      PutFresh(s, Name(stamp), Partial);
      FreshIsLast(s.files, Name(stamp));
      assert u.files == s.files + [File(Name(stamp), Partial)];
    }
  }

  lemma FreshIsLast(files: seq<File>, name: string)
    requires DistinctNames(files) && !HasName(files, name)
    ensures var all := files + [File(name, Partial)];
            && Without(all, name) == files
            && forall c :: Put(all, name, c) == Put(files, name, c)
  {
    var all := files + [File(name, Partial)];
    FindAt(all, |files|);
  }

  // ---- the protocol cuts the same way -----------------------------------------------------

  /** The batching loop's steps alone, with a historian that accepts every batch. */
  function Feed(events: seq<Event>): seq<Action> {
    if events == [] then []
    else
      var n := |events| - 1;
      Feed(events[..n]) + [if events[n].Take? then Arrival(events[n].sample) else Ticker, Answered(Accepted)]
  }

  lemma ExecTwo(s: Sys, actions: seq<Action>, a: Action, b: Action)
    ensures Exec(s, actions + [a, b]) == Apply(Apply(Exec(s, actions), a), b)
  {
    var more := actions + [a, b];
    assert more[..|more| - 1] == actions + [a] && (actions + [a])[..|actions|] == actions;
  }

  ghost predicate Cutting(s: Sys, events: seq<Event>, n: nat) {
    s.flusher.Ready? && CutSoFar(s.ledger.hist, s.buf, events, n)
  }

  lemma FeedOne(s: Sys, events: seq<Event>, n: nat)
    requires Cutting(s, events, n) && n < |events|
    ensures var a := if events[n].Take? then Arrival(events[n].sample) else Ticker;
            Cutting(Apply(Apply(s, a), Answered(Accepted)), events, n + 1)
  {
    if events[n].Take? {
      CutTake(s.ledger.hist, s.buf, events, n);
    } else if s.buf == [] {
      CutIdleTick(s.ledger.hist, events, n);
    } else {
      CutTick(s.ledger.hist, s.buf, events, n);
    }
  }

  lemma {:induction false} FeedCuts(maxFiles: nat, files: seq<File>, events: seq<Event>, n: nat)
    requires n <= |events|
    ensures Cutting(Exec(Init(maxFiles, files), Feed(events[..n])), events, n)
  {
    if n > 0 {
      var init := events[..n][..n - 1];
      assert init == events[..n - 1];
      FeedCuts(maxFiles, files, events, n - 1);
      var a := if events[n - 1].Take? then Arrival(events[n - 1].sample) else Ticker;
      ExecTwo(Init(maxFiles, files), Feed(init), a, Answered(Accepted));
      FeedOne(Exec(Init(maxFiles, files), Feed(init)), events, n - 1);
    }
  }

  /** Uninterrupted, the protocol's arrivals and ticks hand the historian batches cut as the loop cuts them. */
  lemma ProtocolCutsAlike(maxFiles: nat, files: seq<File>, events: seq<Event>)
    ensures var s := Exec(Init(maxFiles, files), Feed(events) + [Ticker, Answered(Accepted)]);
            s.flusher.Ready? && s.buf == [] && CutsOf(s.ledger.hist, events)
  {
    assert events[..|events|] == events;
    FeedCuts(maxFiles, files, events, |events|);
    var s := Exec(Init(maxFiles, files), Feed(events));
    ExecTwo(Init(maxFiles, files), Feed(events), Ticker, Answered(Accepted));
    CutEnd(s.ledger.hist, s.buf, events);
  }
}
