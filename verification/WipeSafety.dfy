/**
 The race between a historian wipe, the fan-in loop and quality marks.

 FanIn is one goroutine whose iteration has three visible steps: look the tag up, store the
 merged sample, forward it unless it was unchanged. A wipe truncates the historian, snapshots
 the store, clears it and writes the snapshot back. A request may flip the quality of stored
 samples at any moment. A run is any interleaving of these steps; an action that is not enabled
 does nothing, so a run is just a list of actions.

 Guarantees come in two strengths: on payloads (`full`), for runs without flips, and on the value
 fields alone, for all runs.
 */
module WipeSafety {
  import opened Wrappers
  import opened Samples
  import opened FanInSpec

  /** Where the loop is; got carries the merged sample and what the lookup returned. */
  datatype Fan = Idle | Got(merged: Sample, prev: Option<Sample>) | Sending(pending: Sample)

  /** Where the wipe is; reseedOk is the outcome of the last write, skipped writes count as ok. */
  datatype Wiper = NoWipe | Truncated | Snapped | Cleared | Reseeded(reseedOk: bool)

  datatype Sys = Sys(
    live: map<string, Sample>,
    fan: Fan,
    wiper: Wiper,
    snapshot: map<string, Sample>,       // taken by the current or last wipe
    sinceSnapshot: seq<Sample>,          // history: forwarded since that snapshot
    sinceClear: seq<Sample>,             // history: forwarded since the last clear
    firstSinceClear: map<string, Sample> // history: per tag, the first sample looked up since the last clear
  )

  datatype Action = Receive(sample: Sample) | Store | Forward | Truncate | SnapshotAll | Clear | Reseed(ok: bool)
    | Flip(ids: seq<string>, quality: int, time: Option<int>)

  const INIT := Sys(map[], Idle, NoWipe, map[], [], [], map[])

  function Apply(s: Sys, a: Action): Sys {
    match a
    case Receive(x) =>
      if !s.fan.Idle? then s
      else
        var prev := Lookup(s.live, x.tagId);
        var merged := Merge(prev, x);
        s.(fan := Got(merged, prev),
           firstSinceClear := if x.tagId in s.firstSinceClear then s.firstSinceClear
                              else s.firstSinceClear[x.tagId := merged])
    case Store =>
      if !s.fan.Got? then s
      else s.(live := s.live[s.fan.merged.tagId := s.fan.merged],
              fan := if Unchanged(s.fan.prev, s.fan.merged) then Idle else Sending(s.fan.merged))
    case Forward =>
      if !s.fan.Sending? then s
      else s.(fan := Idle,
              sinceSnapshot := s.sinceSnapshot + [s.fan.pending],
              sinceClear := s.sinceClear + [s.fan.pending])
    case Truncate =>
      if !(s.wiper.NoWipe? || s.wiper.Reseeded?) then s else s.(wiper := Truncated)
    case SnapshotAll =>
      if !s.wiper.Truncated? then s else s.(wiper := Snapped, snapshot := s.live, sinceSnapshot := [])
    case Clear =>
      if !s.wiper.Snapped? then s
      else s.(wiper := Cleared, live := map[], sinceClear := [], firstSinceClear := map[])
    case Reseed(ok) =>
      if !s.wiper.Cleared? then s
      else s.(wiper := Reseeded(ok || s.snapshot == map[]))
    case Flip(ids, quality, time) =>
      s.(live := MarkAll(s.live, ids, quality, time).0)
  }

  function Exec(s: Sys, actions: seq<Action>): Sys {
    if actions == [] then s else Apply(Exec(s, actions[..|actions| - 1]), actions[|actions| - 1])
  }

  /** An iteration that nobody interrupts is one step of the sequential loop. */
  lemma IterationIsOneArrival(s: Sys, x: Sample)
    requires s.fan.Idle?
    ensures var after := Apply(Apply(Apply(s, Receive(x)), Store), Forward);
            var step := FanInSpec.Step(Start(s.live), Arrive(x));
            && after.fan.Idle? && after.live == step.live
            && after.sinceSnapshot == s.sinceSnapshot + step.forwarded
            && after.wiper == s.wiper && after.snapshot == s.snapshot
  {
    var merged := Merge(Lookup(s.live, x.tagId), x);
    if Unchanged(Lookup(s.live, x.tagId), merged) {
      assert s.sinceSnapshot + [] == s.sinceSnapshot;
    } else {
      assert [] + [merged] == [merged];
    }
  }

  /** A wipe that nobody interrupts: the snapshot is the whole store, which ends empty; only writing a non-empty one can fail. */
  lemma WipeIsItsSteps(s: Sys, ok: bool)
    requires s.wiper.NoWipe? || s.wiper.Reseeded?
    ensures var after := Apply(Apply(Apply(Apply(s, Truncate), SnapshotAll), Clear), Reseed(ok));
            && after.live == map[] && after.snapshot == s.live && after.fan == s.fan
            && after.sinceSnapshot == [] && after.sinceClear == []
            && after.wiper == Reseeded(ok || |s.live| == 0)
  {
  }

  // ---- what only one writer of values guarantees -----------------------------------

  /** The store is keyed by tag, and a lookup still holds unless the store was cleared meanwhile. */
  ghost predicate Consistent(s: Sys, full: bool) {
    && Keyed(s.live) && Keyed(s.snapshot)
    && (s.fan.Got? ==>
          && (s.fan.prev.Some? ==> s.fan.prev.value.tagId == s.fan.merged.tagId)
          && (s.fan.merged.tagId in s.live ==>
                s.fan.prev.Some? && Alike(s.fan.prev.value, s.live[s.fan.merged.tagId], full)))
  }

  ghost predicate Permitted(a: Action, full: bool) {
    full ==> !a.Flip?
  }

  ghost predicate AllPermitted(actions: seq<Action>, full: bool) {
    forall i | 0 <= i < |actions| :: Permitted(actions[i], full)
  }

  lemma FlipKeepsValues(s: Sys, a: Action)
    requires Keyed(s.live) && a.Flip?
    ensures var t := Apply(s, a);
            && t == s.(live := t.live) && Keyed(t.live) && t.live.Keys == s.live.Keys
            && forall tag | tag in s.live :: Alike(t.live[tag], s.live[tag], false)
  {
    MarkKeepsValues(s.live, a.ids, a.quality, a.time);
  }

  lemma ConsistentStep(s: Sys, a: Action, full: bool)
    requires Consistent(s, full) && Permitted(a, full)
    ensures Consistent(Apply(s, a), full)
  {
    if a.Flip? {
      FlipKeepsValues(s, a);
    }
  }

  lemma {:induction false} ConsistentRun(s: Sys, actions: seq<Action>, full: bool)
    requires Consistent(s, full) && AllPermitted(actions, full)
    ensures Consistent(Exec(s, actions), full)
  {
    if actions != [] {
      ConsistentRun(s, actions[..|actions| - 1], full);
      ConsistentStep(Exec(s, actions[..|actions| - 1]), actions[|actions| - 1], full);
    }
  }

  // ---- without a clear, stored values are forwarded values ---------------------------

  /** The values of the last of the samples that belongs to the tag. */
  function ForwardedValues(xs: seq<Sample>, tag: string): Option<Values> {
    match LastOf(OfTag(tag, xs))
    case None => None
    case Some(x) => Some(ValuesOf(x))
  }

  /** The last sample forwarded for the tag since the last clear has the values of x. */
  ghost predicate LastForwarded(s: Sys, tag: string, x: Sample) {
    ForwardedValues(s.sinceClear, tag) == Some(ValuesOf(x))
  }

  ghost predicate IsPending(s: Sys, tag: string, x: Sample) {
    s.fan.Sending? && s.fan.pending.tagId == tag && ValuesOf(s.fan.pending) == ValuesOf(x)
  }

  /** Stored values are those last forwarded, or those of the pending sample. */
  ghost predicate ValuesAreForwarded(s: Sys) {
    && Consistent(s, false)
    && (forall t | t in s.live :: LastForwarded(s, t, s.live[t]) || IsPending(s, t, s.live[t]))
    && (s.fan.Sending? ==> s.fan.pending.tagId in s.live && IsPending(s, s.fan.pending.tagId, s.live[s.fan.pending.tagId]))
    && (s.fan.Got? && s.fan.prev.Some? ==> s.fan.merged.tagId in s.live)
  }

  lemma ForwardKeepsValues(s: Sys)
    requires ValuesAreForwarded(s) && s.fan.Sending?
    ensures ValuesAreForwarded(Apply(s, Forward))
  {
    var after := Apply(s, Forward);
    forall t | t in s.live
      ensures LastForwarded(after, t, s.live[t])
    {
      OfTagSnoc(t, s.sinceClear, s.fan.pending);
    }
  }

  /** A suppressed sample has the values already stored, hence those last forwarded. */
  lemma SuppressedRepeatsForwarded(s: Sys)
    requires ValuesAreForwarded(s) && s.fan.Got? && Unchanged(s.fan.prev, s.fan.merged)
    ensures LastForwarded(s, s.fan.merged.tagId, s.fan.merged)
  {
    var tag := s.fan.merged.tagId;
    SamePayloadIsEquality(s.fan.prev.value, s.fan.merged);
    assert ValuesOf(s.live[tag]) == ValuesOf(s.fan.merged) && LastForwarded(s, tag, s.live[tag]);
  }

  lemma StoreKeepsValues(s: Sys)
    requires ValuesAreForwarded(s) && s.fan.Got?
    ensures ValuesAreForwarded(Apply(s, Store))
  {
    var after, tag := Apply(s, Store), s.fan.merged.tagId;
    ConsistentStep(s, Store, false);
    if Unchanged(s.fan.prev, s.fan.merged) {
      SuppressedRepeatsForwarded(s);
    }
    assert after.sinceClear == s.sinceClear && after.live == s.live[tag := s.fan.merged];
    forall t | t in after.live && t != tag
      ensures LastForwarded(after, t, after.live[t])
    {
      assert LastForwarded(s, t, s.live[t]);
    }
  }

  lemma FlipKeepsForwarded(s: Sys, a: Action)
    requires ValuesAreForwarded(s) && a.Flip?
    ensures ValuesAreForwarded(Apply(s, a))
  {
    FlipKeepsValues(s, a);
    ConsistentStep(s, a, false);
  }

  lemma ValuesStep(s: Sys, a: Action)
    requires ValuesAreForwarded(s) && a != Clear
    ensures ValuesAreForwarded(Apply(s, a))
  {
    match a {
      case Store => if s.fan.Got? { StoreKeepsValues(s); }
      case Forward => if s.fan.Sending? { ForwardKeepsValues(s); }
      case Flip(_, _, _) => FlipKeepsForwarded(s, a);
      case _ => ConsistentStep(s, a, false);
    }
  }

  /**
   In every interleaving without a clear, quality flips at any moment included: the value fields
   of each stored sample are those of the last sample forwarded for its tag, or of the pending one.
   */
  lemma {:induction false} StoredValuesAreForwarded(actions: seq<Action>)
    requires Clear !in actions
    ensures ValuesAreForwarded(Exec(INIT, actions))
  {
    if actions != [] {
      var n := |actions| - 1;
      StoredValuesAreForwarded(actions[..n]);
      assert actions[n] in actions;
      ValuesStep(Exec(INIT, actions[..n]), actions[n]);
    }
  }

  // ---- a successful wipe loses nothing ---------------------------------------------

  /** Some sample of the list belongs to the tag and is like x. */
  ghost predicate Carried(x: Sample, xs: seq<Sample>, full: bool) {
    exists i | 0 <= i < |xs| :: xs[i].tagId == x.tagId && Alike(xs[i], x, full)
  }

  ghost predicate InSnapshot(x: Sample, snapshot: map<string, Sample>, full: bool) {
    x.tagId in snapshot && Alike(snapshot[x.tagId], x, full)
  }

  ghost predicate Kept(s: Sys, x: Sample, full: bool) {
    InSnapshot(x, s.snapshot, full) || Carried(x, s.sinceSnapshot, full)
  }

  /** What is stored is in the snapshot, was forwarded since it was taken, or is about to be forwarded. */
  ghost predicate Covered(s: Sys, full: bool) {
    forall t | t in s.live ::
      Kept(s, s.live[t], full) || (s.fan.Sending? && s.fan.pending.tagId == t && Alike(s.fan.pending, s.live[t], full))
  }

  /**
   The guard of the theorem, checkable when the snapshot is about to be taken: an iteration that
   is going to be suppressed must still find its tag in the store.
   */
  ghost predicate Safe(s: Sys) {
    s.fan.Got? && Unchanged(s.fan.prev, s.fan.merged) ==> s.fan.merged.tagId in s.live
  }

  /** Holds from the snapshot on: what is stored is covered, and so is a suppressible lookup. */
  ghost predicate Protected(s: Sys, full: bool) {
    && Covered(s, full)
    && (s.fan.Got? && Unchanged(s.fan.prev, s.fan.merged) ==> Kept(s, s.fan.merged, full))
  }

  lemma SnapshotProtects(s: Sys, full: bool)
    requires Consistent(s, full) && s.wiper.Truncated? && Safe(s)
    ensures Protected(Apply(s, SnapshotAll), full)
  {
    forall t | t in s.live
      ensures Kept(Apply(s, SnapshotAll), s.live[t], full)
    {
      assert InSnapshot(s.live[t], s.live, full);
    }
  }

  lemma CarriedGrows(x: Sample, xs: seq<Sample>, y: Sample, full: bool)
    ensures Carried(x, xs, full) ==> Carried(x, xs + [y], full)
    ensures x.tagId == y.tagId && Alike(y, x, full) ==> Carried(x, xs + [y], full)
  {
    if Carried(x, xs, full) {
      var i :| 0 <= i < |xs| && xs[i].tagId == x.tagId && Alike(xs[i], x, full);
      assert (xs + [y])[i] == xs[i];
    }
    assert (xs + [y])[|xs|] == y;
  }

  lemma KeptTransfers(s: Sys, x: Sample, y: Sample, full: bool)
    requires Kept(s, x, full) && x.tagId == y.tagId && Alike(x, y, full)
    ensures Kept(s, y, full)
  {
    if Carried(x, s.sinceSnapshot, full) {
      var i :| 0 <= i < |s.sinceSnapshot| && s.sinceSnapshot[i].tagId == x.tagId && Alike(s.sinceSnapshot[i], x, full);
      assert s.sinceSnapshot[i].tagId == y.tagId && Alike(s.sinceSnapshot[i], y, full);
    }
  }

  lemma ReceiveProtects(s: Sys, x: Sample, full: bool)
    requires Consistent(s, full) && Protected(s, full) && s.fan.Idle?
    ensures Protected(Apply(s, Receive(x)), full)
  {
    var after := Apply(s, Receive(x));
    assert forall y :: Kept(s, y, full) ==> Kept(after, y, full);
    if Unchanged(after.fan.prev, after.fan.merged) {
      KeptTransfers(after, s.live[x.tagId], after.fan.merged, full);
    }
  }

  lemma StoreProtects(s: Sys, full: bool)
    requires Consistent(s, full) && Protected(s, full) && s.fan.Got?
    ensures Protected(Apply(s, Store), full)
  {
    var after := Apply(s, Store);
    assert forall y :: Kept(s, y, full) ==> Kept(after, y, full);
  }

  lemma ForwardProtects(s: Sys, full: bool)
    requires Consistent(s, full) && Protected(s, full) && s.fan.Sending?
    ensures Protected(Apply(s, Forward), full)
  {
    var after := Apply(s, Forward);
    forall t | t in s.live
      ensures Kept(after, s.live[t], full)
    {
      CarriedGrows(s.live[t], s.sinceSnapshot, s.fan.pending, full);
    }
  }

  lemma FlipProtects(s: Sys, a: Action)
    requires Consistent(s, false) && Protected(s, false) && a.Flip?
    ensures Protected(Apply(s, a), false)
  {
    var after := Apply(s, a);
    FlipKeepsValues(s, a);
    forall t | t in after.live && Kept(s, s.live[t], false)
      ensures Kept(after, after.live[t], false)
    {
      KeptTransfers(s, s.live[t], after.live[t], false);
    }
    assert forall y :: Kept(s, y, false) ==> Kept(after, y, false);
  }

  lemma ProtectedStep(s: Sys, a: Action, full: bool)
    requires Consistent(s, full) && Protected(s, full) && !s.wiper.Truncated? && Permitted(a, full)
    ensures Protected(Apply(s, a), full)
  {
    match a {
      case Receive(x) => if s.fan.Idle? { ReceiveProtects(s, x, full); }
      case Store => if s.fan.Got? { StoreProtects(s, full); }
      case Forward => if s.fan.Sending? { ForwardProtects(s, full); }
      case Flip(_, _, _) => FlipProtects(s, a);
      case _ =>
        var after := Apply(s, a);
        assert forall y :: Kept(s, y, full) ==> Kept(after, y, full);
    }
  }

  lemma {:induction false} ProtectedRun(s: Sys, actions: seq<Action>, full: bool)
    requires Consistent(s, full) && Protected(s, full) && !s.wiper.Truncated?
    requires Truncate !in actions && AllPermitted(actions, full)
    ensures Protected(Exec(s, actions), full) && !Exec(s, actions).wiper.Truncated?
  {
    if actions != [] {
      var n := |actions| - 1;
      ProtectedRun(s, actions[..n], full);
      ConsistentRun(s, actions[..n], full);
      assert actions[n] in actions;
      ProtectedStep(Exec(s, actions[..n]), actions[n], full);
    }
  }

  /** Every way the run can go on, up to the next wipe, keeps a finished reseed covering the store. */
  ghost predicate AlwaysCovered(s: Sys, full: bool) {
    forall actions: seq<Action> ::
      var after := Exec(Apply(s, SnapshotAll), actions);
      Truncate !in actions && AllPermitted(actions, full) && after.wiper == Reseeded(true) ==> Covered(after, full)
  }

  /**
   Wipe safety, exactly: once truncate, snapshot, clear and a successful reseed have finished,
   what is stored is in the snapshot, was forwarded since, or is pending in the loop's current
   step, whatever the interleaving, if and only if the state the snapshot was taken in was Safe.
   On payloads this is about continuations without quality flips, on value fields about all.
   */
  lemma WipeIsLossless(s: Sys, full: bool)
    requires Consistent(s, full) && s.wiper.Truncated?
    ensures AlwaysCovered(s, full) <==> Safe(s)
  {
    if Safe(s) {
      SnapshotProtects(s, full);
      ConsistentStep(s, SnapshotAll, full);
      forall actions: seq<Action> | Truncate !in actions && AllPermitted(actions, full)
        ensures Covered(Exec(Apply(s, SnapshotAll), actions), full)
      {
        ProtectedRun(Apply(s, SnapshotAll), actions, full);
      }
    } else {
      StaleLookupLosesPayload(s, full);
    }
  }

  /** Two more steps after a clear: the reseed passes, then the sample in flight is stored. */
  lemma ThreeSteps(s: Sys, a: Action, b: Action, c: Action)
    ensures Exec(s, [a, b, c]) == Apply(Apply(Apply(s, a), b), c)
  {
    assert [a, b, c][..2] == [a, b] && [a, b][..1] == [a] && [a][..0] == [];
    assert Exec(s, []) == s && Exec(s, [a]) == Apply(s, a) && Exec(s, [a, b]) == Apply(Apply(s, a), b);
  }

  /** The losing run: the clear and the reseed pass, then the suppressed sample is stored. */
  lemma StaleLookupLosesPayload(s: Sys, full: bool)
    requires Consistent(s, full) && s.wiper.Truncated? && !Safe(s)
    ensures !AlwaysCovered(s, full)
  {
    var s0 := Apply(s, SnapshotAll);
    var actions := [Clear, Reseed(true), Store];
    ThreeSteps(s0, Clear, Reseed(true), Store);
    var s3 := Exec(s0, actions);
    assert Truncate !in actions && AllPermitted(actions, full) && s3.wiper == Reseeded(true);
    var t := s.fan.merged.tagId;
    assert t in s3.live && t !in s3.snapshot && s3.sinceSnapshot == [] && s3.fan.Idle?;
    assert !Kept(s3, s3.live[t], full);
  }

  /** A lookup that found something still finds its tag, as long as nothing was cleared. */
  ghost predicate Found(s: Sys) {
    s.fan.Got? && s.fan.prev.Some? ==> s.fan.merged.tagId in s.live
  }

  lemma FoundStep(s: Sys, a: Action)
    requires Consistent(s, false) && Found(s) && a != Clear
    ensures Found(Apply(s, a))
  {
    if a.Flip? {
      FlipKeepsValues(s, a);
    }
  }

  /** A first wipe is always Safe: the store loses tags only by a clear. */
  lemma {:induction false} FirstWipeIsSafe(actions: seq<Action>)
    requires Clear !in actions
    ensures Safe(Exec(INIT, actions)) && Found(Exec(INIT, actions))
  {
    if actions != [] {
      var n := |actions| - 1;
      FirstWipeIsSafe(actions[..n]);
      ConsistentRun(INIT, actions[..n], false);
      assert actions[n] in actions;
      FoundStep(Exec(INIT, actions[..n]), actions[n]);
    }
  }

  lemma {:induction false} ExecConcat(s: Sys, a: seq<Action>, b: seq<Action>)
    ensures Exec(s, a + b) == Exec(Exec(s, a), b)
  {
    if b == [] {
      assert a + b == a;
    } else {
      var n := |b| - 1;
      ExecConcat(s, a, b[..n]);
      assert (a + b)[..|a + b| - 1] == a + b[..n];
    }
  }

  /**
   A second wipe need not be: an iteration that looked its tag up before the first clear and
   stores it after the second snapshot is suppressed against a value neither wipe kept. No flip is
   needed for that.
   */
  lemma TwoWipesCanBeUnsafe(x: Sample) returns (actions: seq<Action>)
    ensures AllPermitted(actions, true)
    ensures Exec(INIT, actions).wiper.Truncated? && !Safe(Exec(INIT, actions))
    ensures !AlwaysCovered(Exec(INIT, actions), true) && !AlwaysCovered(Exec(INIT, actions), false)
  {
    var first, second, third := [Receive(x), Store, Forward], [Truncate, SnapshotAll, Receive(x)], [Clear, Reseed(true), Truncate];
    var s1 := FirstSampleIsForwarded(x);
    var s2 := LookupBeforeClear(s1, x);
    ThreeSteps(s2, Clear, Reseed(true), Truncate);
    var s3 := Exec(s2, third);
    actions := first + second + third;
    ExecConcat(INIT, first, second);
    ExecConcat(INIT, first + second, third);
    StaleLookupLosesPayload(s3, true);
    StaleLookupLosesPayload(s3, false);
  }

  lemma FirstSampleIsForwarded(x: Sample) returns (s: Sys)
    ensures s == Exec(INIT, [Receive(x), Store, Forward])
    ensures s.live == map[x.tagId := x] && s.fan == Idle && s.wiper == NoWipe
  {
    ThreeSteps(INIT, Receive(x), Store, Forward);
    s := Exec(INIT, [Receive(x), Store, Forward]);
  }

  lemma LookupBeforeClear(s: Sys, x: Sample) returns (t: Sys)
    requires s.live == map[x.tagId := x] && s.fan == Idle && s.wiper == NoWipe
    ensures t == Exec(s, [Truncate, SnapshotAll, Receive(x)])
    ensures t.snapshot == s.live && t.fan == Got(x, Some(x)) && t.wiper == Snapped
  {
    ThreeSteps(s, Truncate, SnapshotAll, Receive(x));
    t := Exec(s, [Truncate, SnapshotAll, Receive(x)]);
    assert Merge(Some(x), x) == x;
  }

  // ---- a failed reseed is refilled by the next polls -------------------------------

  /** Still to be forwarded by the iteration in flight, or already forwarded. */
  ghost predicate Delivered(s: Sys, x: Sample) {
    || s.fan == Got(x, None)
    || s.fan == Sending(x)
    || x in s.sinceClear
  }

  /**
   Since the clear, outside the one tag whose lookup straddled it: a stored tag has been looked
   up since, and its first sample is delivered.
   */
  ghost predicate Refills(s: Sys, straddler: Option<string>) {
    && (s.fan.Got? && s.fan.merged.tagId !in s.firstSinceClear ==> straddler == Some(s.fan.merged.tagId))
    && (forall t | t in s.live && Some(t) != straddler :: t in s.firstSinceClear)
    && (forall t | t in s.firstSinceClear && Some(t) != straddler ::
          Delivered(s, s.firstSinceClear[t]) && s.firstSinceClear[t].tagId == t)
  }

  lemma RefillsStep(s: Sys, a: Action, straddler: Option<string>)
    requires Consistent(s, false) && Refills(s, straddler) && a != Clear
    ensures Refills(Apply(s, a), straddler)
  {
    if a.Flip? {
      FlipKeepsValues(s, a);
    }
  }

  function Straddler(s: Sys): Option<string> {
    if s.fan.Got? then Some(s.fan.merged.tagId) else None
  }

  /**
   Whether or not the reseed write succeeds: from the clear on, up to the next one, every tag but
   the one whose lookup was in flight at the clear gets its first later sample forwarded.
   */
  lemma {:induction false} FirstSampleAfterClearIsForwarded(s: Sys, actions: seq<Action>)
    requires Consistent(s, false) && s.wiper.Snapped? && Clear !in actions
    ensures Refills(Exec(Apply(s, Clear), actions), Straddler(s))
  {
    if actions != [] {
      var n := |actions| - 1;
      FirstSampleAfterClearIsForwarded(s, actions[..n]);
      ConsistentStep(s, Clear, false);
      ConsistentRun(Apply(s, Clear), actions[..n], false);
      assert actions[n] in actions;
      RefillsStep(Exec(Apply(s, Clear), actions[..n]), actions[n], Straddler(s));
    }
  }

  /** The sample in flight at the clear: still on its way, or forwarded after the clear. */
  ghost predicate StraddlerOnItsWay(s: Sys, prev: Option<Sample>, merged: Sample) {
    s.fan == Got(merged, prev) || s.fan == Sending(merged) || merged in s.sinceClear
  }

  /** The tag set aside: unless the sample in flight is itself suppressed, it is forwarded after the clear. */
  lemma {:induction false} StraddlerIsForwarded(s: Sys, actions: seq<Action>)
    requires s.wiper.Snapped? && s.fan.Got? && !Unchanged(s.fan.prev, s.fan.merged) && Clear !in actions
    ensures StraddlerOnItsWay(Exec(Apply(s, Clear), actions), s.fan.prev, s.fan.merged)
  {
    if actions != [] {
      var n := |actions| - 1;
      StraddlerIsForwarded(s, actions[..n]);
      assert actions[n] in actions;
    }
  }

  /**
   Setting that tag aside is necessary: whatever was in flight at the clear, its tag's first later
   sample can repeat it, and is then suppressed and not delivered.
   */
  lemma StraddlersNextCanBeSuppressed(s: Sys) returns (actions: seq<Action>)
    requires s.wiper.Snapped? && s.fan.Got?
    ensures Clear !in actions
    ensures var after, tag := Exec(Apply(s, Clear), actions), s.fan.merged.tagId;
            after.fan.Idle? && tag in after.firstSinceClear && !Delivered(after, after.firstSinceClear[tag])
  {
    var s0, m := Apply(s, Clear), s.fan.merged;
    var next := Receive(m.(time := m.time + 1));
    actions := [Store, Forward, next];
    ThreeSteps(s0, Store, Forward, next);
    ExecConcat(s0, actions, [Store]);
    assert [Store][..0] == [];
    actions := actions + [Store];
    var s2 := Apply(Apply(s0, Store), Forward);
    assert s2.fan.Idle? && s2.live == map[m.tagId := m];
    assert s2.sinceClear == [] || s2.sinceClear == [m];
    assert Merge(Some(m), m.(time := m.time + 1)) == m.(time := m.time + 1);
  }
}
