/**
 What the fan-in loop does to a stream of samples, stated on values: a merge of bare link-loss
 samples, suppression against the last stored sample, and forwarding. The sequential loop
 (FanIn) and the interleaved protocol (WipeSafety) are both built on Merge.
 */
module FanInSpec {
  import opened Wrappers
  import opened Samples

  /** The stored sample of each tag, what was broadcast and forwarded, and how many were suppressed. */
  datatype State = State(
    live: map<string, Sample>, broadcast: seq<Sample>, forwarded: seq<Sample>, suppressed: nat)

  function Start(live: map<string, Sample>): State {
    State(live, [], [], 0)
  }

  const EMPTY := Start(map[])

  /** A sample arrives, or somebody flips the quality of stored samples (and maybe their time). */
  datatype Event = Arrive(sample: Sample) | Mark(ids: seq<string>, quality: int, time: Option<int>)

  function Lookup(live: map<string, Sample>, tag: string): Option<Sample> {
    if tag in live then Some(live[tag]) else None
  }

  predicate BareBad(s: Sample) {
    s.quality != QUALITY_GOOD && s.num.None? && s.text.None? && s.flag.None?
  }

  /** A bare non-good sample keeps the previous value and only moves time and quality. */
  function Merge(prev: Option<Sample>, s: Sample): Sample {
    if prev.Some? && BareBad(s) then prev.value.(time := s.time, quality := s.quality) else s
  }

  predicate Unchanged(prev: Option<Sample>, merged: Sample) {
    prev.Some? && SamePayload(prev.value, merged)
  }

  function MarkOne(live: map<string, Sample>, id: string, quality: int, time: Option<int>): map<string, Sample> {
    if id !in live || live[id].quality == quality then live
    else live[id := live[id].(quality := quality, time := if time.Some? then time.value else live[id].time)]
  }

  /** The stored samples after marking, and the changed samples in the order of the ids. */
  function MarkAll(live: map<string, Sample>, ids: seq<string>, quality: int, time: Option<int>)
    : (map<string, Sample>, seq<Sample>)
  {
    if ids == [] then (live, [])
    else
      var n := |ids| - 1;
      var (before, changed) := MarkAll(live, ids[..n], quality, time);
      var after := MarkOne(before, ids[n], quality, time);
      (after, if after == before then changed else changed + [after[ids[n]]])
  }

  lemma MarkOneMore(live: map<string, Sample>, ids: seq<string>, i: nat, quality: int, time: Option<int>)
    requires i < |ids|
    ensures var (before, changed) := MarkAll(live, ids[..i], quality, time);
            var after := MarkOne(before, ids[i], quality, time);
            MarkAll(live, ids[..i + 1], quality, time) ==
              (after, if ids[i] in before && before[ids[i]].quality != quality then changed + [after[ids[i]]] else changed)
  {
    assert ids[..i + 1][..i] == ids[..i];
    var before := MarkAll(live, ids[..i], quality, time).0;
    if ids[i] in before && before[ids[i]].quality != quality {
      assert MarkOne(before, ids[i], quality, time)[ids[i]] != before[ids[i]];
    }
  }

  /** snap holds every stored sample once, in some order. */
  ghost predicate IsSnapshot(snap: seq<Sample>, live: map<string, Sample>) {
    && |snap| == |live|
    && (forall i | 0 <= i < |snap| :: snap[i].tagId in live && live[snap[i].tagId] == snap[i])
    && (forall t | t in live :: live[t] in snap)
  }

  ghost function Restamped(live: map<string, Sample>, now: int): map<string, Sample> {
    map t | t in live :: live[t].(time := now)
  }

  lemma RestampedSnapshot(snap: seq<Sample>, live: map<string, Sample>, now: int, batch: seq<Sample>)
    requires IsSnapshot(snap, live) && |batch| == |snap|
    requires forall i | 0 <= i < |snap| :: batch[i] == snap[i].(time := now)
    ensures IsSnapshot(batch, Restamped(live, now))
  {
    assert Restamped(live, now).Keys == live.Keys;
    assert |Restamped(live, now)| == |Restamped(live, now).Keys| == |live|;
    forall t | t in live
      ensures live[t].(time := now) in batch
    {
      var i :| 0 <= i < |snap| && snap[i] == live[t];
      assert batch[i] == live[t].(time := now);
    }
  }

  function Step(st: State, e: Event): State {
    match e
    case Mark(ids, quality, time) => st.(live := MarkAll(st.live, ids, quality, time).0)
    case Arrive(s) =>
      var prev := Lookup(st.live, s.tagId);
      var merged := Merge(prev, s);
      var stored := st.(live := st.live[merged.tagId := merged], broadcast := st.broadcast + [merged]);
      if Unchanged(prev, merged) then stored.(suppressed := st.suppressed + 1)
      else stored.(forwarded := st.forwarded + [merged])
  }

  function Run(st: State, es: seq<Event>): State {
    if es == [] then st else Step(Run(st, es[..|es| - 1]), es[|es| - 1])
  }

  function Arrivals(xs: seq<Sample>): seq<Event> {
    seq(|xs|, i requires 0 <= i < |xs| => Arrive(xs[i]))
  }

  lemma ArrivalsInit(xs: seq<Sample>)
    requires xs != []
    ensures Arrivals(xs)[..|xs| - 1] == Arrivals(xs[..|xs| - 1])
  {
  }

  /** The state after one more sample of the input. */
  lemma RunOneMore(start: State, input: seq<Sample>, i: nat) returns (after: State)
    requires i < |input|
    ensures after == Run(start, Arrivals(input[..i + 1])) == Step(Run(start, Arrivals(input[..i])), Arrive(input[i]))
  {
    ArrivalsInit(input[..i + 1]);
    assert input[..i + 1][..i] == input[..i];
    after := Run(start, Arrivals(input[..i + 1]));
  }

  predicate Keyed(live: map<string, Sample>) {
    forall t | t in live :: live[t].tagId == t
  }

  // ---- an independent account of one tag's stream -----------------------------

  /** Each sample of one tag, with bare link-loss samples carrying the value before them. */
  function Merged(xs: seq<Sample>): (r: seq<Sample>)
    ensures |r| == |xs|
  {
    if xs == [] then []
    else
      var n := |xs| - 1;
      var before := Merged(xs[..n]);
      before + [Merge(if n == 0 then None else Some(before[n - 1]), xs[n])]
  }

  /** Drops every sample whose payload repeats its predecessor's. */
  function DeStutter(xs: seq<Sample>): seq<Sample> {
    if xs == [] then []
    else
      var n := |xs| - 1;
      var before := DeStutter(xs[..n]);
      if n > 0 && SamePayload(xs[n - 1], xs[n]) then before else before + [xs[n]]
  }

  /** DeStutter keeps the first sample, ends on the last payload and never repeats one. */
  lemma {:induction false} DeStutterHasNoStutter(xs: seq<Sample>)
    ensures xs == [] <==> DeStutter(xs) == []
    ensures xs != [] ==> DeStutter(xs)[0] == xs[0] && SamePayload(DeStutter(xs)[|DeStutter(xs)| - 1], xs[|xs| - 1])
    ensures forall i | 0 < i < |DeStutter(xs)| :: !SamePayload(DeStutter(xs)[i - 1], DeStutter(xs)[i])
  {
    if xs != [] {
      var n := |xs| - 1;
      DeStutterHasNoStutter(xs[..n]);
      if n > 0 {
        assert xs[..n][n - 1] == xs[n - 1];
      }
    }
  }

  // ---- suppression is lossless --------------------------------------------------

  /** What one arrival does to one tag: nothing to the others, one merge and at most one forward to its own. */
  lemma ArriveOnTag(st: State, s: Sample, tag: string)
    requires Keyed(st.live)
    ensures var after := Step(st, Arrive(s)); var prev := Lookup(st.live, tag); var merged := Merge(prev, s);
            && Keyed(after.live)
            && Lookup(after.live, tag) == (if s.tagId == tag then Some(merged) else prev)
            && OfTag(tag, after.broadcast) ==
                 (if s.tagId == tag then OfTag(tag, st.broadcast) + [merged] else OfTag(tag, st.broadcast))
            && OfTag(tag, after.forwarded) ==
                 (if s.tagId == tag && !Unchanged(prev, merged) then OfTag(tag, st.forwarded) + [merged]
                  else OfTag(tag, st.forwarded))
  {
    OfTagSnoc(tag, st.broadcast, Merge(Lookup(st.live, s.tagId), s));
    OfTagSnoc(tag, st.forwarded, Merge(Lookup(st.live, s.tagId), s));
  }

  /** The sample says something about the value: it is good, or it carries one. */
  predicate SaysValue(s: Sample) {
    s.quality == 0 || s.num.Some? || s.text.Some? || s.flag.Some?
  }

  /**
   What one arrival makes of its own tag, field by field: time and quality are the arrival's, the
   values are those stored before when the tag was known and the arrival says nothing about them,
   and it is forwarded unless the tag was known with just this quality and these values.
   */
  lemma ArrivalStores(st: State, s: Sample) returns (x: Sample)
    requires Keyed(st.live)
    ensures var after, known := Step(st, Arrive(s)), s.tagId in st.live;
            && after.live == st.live[s.tagId := x] && after.broadcast == st.broadcast + [x]
            && x.tagId == s.tagId && x.time == s.time && x.quality == s.quality
            && (if known && !SaysValue(s)
                then x.num == st.live[s.tagId].num && x.text == st.live[s.tagId].text && x.flag == st.live[s.tagId].flag
                else x.num == s.num && x.text == s.text && x.flag == s.flag)
            && (after.forwarded == st.forwarded || after.forwarded == st.forwarded + [x])
            && (after.forwarded == st.forwarded <==> known && st.live[s.tagId] == x.(time := st.live[s.tagId].time))
            && after.suppressed == st.suppressed + (if after.forwarded == st.forwarded then 1 else 0)
  {
    x := Step(st, Arrive(s)).live[s.tagId];
  }

  /** A changed quality always reaches the historian. */
  lemma ChangedQualityIsForwarded(st: State, s: Sample)
    requires Keyed(st.live) && s.tagId in st.live && s.quality != st.live[s.tagId].quality
    ensures var after := Step(st, Arrive(s));
            after.forwarded == st.forwarded + [after.live[s.tagId]] && after.live[s.tagId].quality == s.quality
  {
    var x := ArrivalStores(st, s);
  }

  /** The values of the last sample that says something about them. */
  function LastSaid(xs: seq<Sample>): Values {
    if xs == [] then Values(None, None, None)
    else
      var last := xs[|xs| - 1];
      if SaysValue(last) then Values(last.num, last.text, last.flag) else LastSaid(xs[..|xs| - 1])
  }

  lemma LastSaidSnoc(xs: seq<Sample>, x: Sample)
    ensures LastSaid(xs + [x]) == if SaysValue(x) then Values(x.num, x.text, x.flag) else LastSaid(xs)
  {
    assert (xs + [x])[..|xs|] == xs;
  }

  ghost predicate Follows(st: State, tag: string, own: seq<Sample>) {
    && (tag in st.live <==> own != [])
    && (own != [] ==>
          && st.live[tag].time == own[|own| - 1].time && st.live[tag].quality == own[|own| - 1].quality
          && Values(st.live[tag].num, st.live[tag].text, st.live[tag].flag) == LastSaid(own))
  }

  lemma FollowsStep(before: State, after: State, tag: string, init: seq<Sample>, input: seq<Sample>, s: Sample)
    requires Keyed(before.live) && Follows(before, tag, OfTag(tag, init))
    requires after == Step(before, Arrive(s)) && input == init + [s]
    ensures Keyed(after.live) && Follows(after, tag, OfTag(tag, input))
  {
    var x := ArrivalStores(before, s);
    OfTagSnoc(tag, init, s);
    LastSaidSnoc(OfTag(tag, init), s);
  }

  /**
   The store follows the input: every tag that has arrived has the time and the quality of its last
   sample, and the values of the last one that said something about them.
   */
  lemma {:induction false} StoreFollowsInput(input: seq<Sample>, tag: string) returns (st: State)
    ensures st == Run(EMPTY, Arrivals(input)) && Keyed(st.live) && Follows(st, tag, OfTag(tag, input))
    decreases |input|
  {
    st := EMPTY;
    if input != [] {
      var init, s := InitAndLast(input);
      var before := StoreFollowsInput(init, tag);
      st := RunOnce(EMPTY, init, s, before);
      FollowsStep(before, st, tag, init, input, s);
    }
  }

  lemma MergedSnoc(xs: seq<Sample>, x: Sample)
    ensures Merged(xs + [x]) == Merged(xs) + [Merge(LastOf(Merged(xs)), x)]
  {
    var all := xs + [x];
    assert all[..|all| - 1] == xs && all[|all| - 1] == x;
  }

  lemma DeStutterSnoc(xs: seq<Sample>, x: Sample)
    ensures DeStutter(xs + [x]) == if Unchanged(LastOf(xs), x) then DeStutter(xs) else DeStutter(xs) + [x]
  {
    var all := xs + [x];
    assert all[..|all| - 1] == xs && all[|all| - 1] == x;
  }

  function LastOf(xs: seq<Sample>): Option<Sample> {
    if xs == [] then None else Some(xs[|xs| - 1])
  }

  ghost predicate StreamOf(st: State, tag: string, input: seq<Sample>) {
    var merged := Merged(OfTag(tag, input));
    && OfTag(tag, st.broadcast) == merged
    && OfTag(tag, st.forwarded) == DeStutter(merged)
    && Lookup(st.live, tag) == LastOf(merged)
  }

  lemma StreamStep(st: State, tag: string, input: seq<Sample>, s: Sample)
    requires Keyed(st.live) && StreamOf(st, tag, input)
    ensures Keyed(Step(st, Arrive(s)).live) && StreamOf(Step(st, Arrive(s)), tag, input + [s])
  {
    ArriveOnTag(st, s, tag);
    OfTagSnoc(tag, input, s);
    if s.tagId == tag {
      var merged := Merged(OfTag(tag, input));
      MergedSnoc(OfTag(tag, input), s);
      DeStutterSnoc(merged, Merge(LastOf(merged), s));
    }
  }

  ghost predicate Streams(st: State, tag: string, input: seq<Sample>) {
    Keyed(st.live) && StreamOf(st, tag, input)
  }

  lemma StreamsStep(before: State, after: State, tag: string, init: seq<Sample>, input: seq<Sample>, s: Sample)
    requires Streams(before, tag, init) && after == Step(before, Arrive(s)) && input == init + [s]
    ensures Streams(after, tag, input)
  {
    StreamStep(before, tag, init, s);
  }

  lemma InitAndLast(input: seq<Sample>) returns (init: seq<Sample>, s: Sample)
    requires input != []
    ensures input == init + [s] && |init| < |input|
  {
    init, s := input[..|input| - 1], input[|input| - 1];
  }

  lemma RunOnce(start: State, init: seq<Sample>, s: Sample, before: State) returns (after: State)
    requires before == Run(start, Arrivals(init))
    ensures after == Run(start, Arrivals(init + [s])) == Step(before, Arrive(s))
  {
    assert (init + [s])[..|init|] == init && (init + [s])[..|init| + 1] == init + [s];
    after := RunOneMore(start, init + [s], |init|);
  }

  lemma {:induction false} RunStreams(start: State, input: seq<Sample>, tag: string) returns (st: State)
    requires Streams(start, tag, [])
    ensures st == Run(start, Arrivals(input)) && Streams(st, tag, input)
    decreases |input|
  {
    st := start;
    if input != [] {
      var init, s := InitAndLast(input);
      var before := RunStreams(start, init, tag);
      st := RunOnce(start, init, s, before);
      StreamsStep(before, st, tag, init, input, s);
    }
  }

  /**
   On a run of arrivals from an empty store, the broadcast samples of every tag are its merged
   input, the forwarded ones are that stream de-stuttered, and the store holds its last sample.
   */
  lemma SuppressionIsLossless(input: seq<Sample>, tag: string)
    ensures StreamOf(Run(EMPTY, Arrivals(input)), tag, input)
    ensures Keyed(Run(EMPTY, Arrivals(input)).live)
  {
    var _ := RunStreams(EMPTY, input, tag);
  }

  /** Hence no tag is forwarded twice in a row with one payload, and the store matches the last forward. */
  lemma ForwardsNeverStutter(input: seq<Sample>, tag: string)
    ensures var st := Run(EMPTY, Arrivals(input)); var f := OfTag(tag, st.forwarded);
            && (forall i | 0 < i < |f| :: !SamePayload(f[i - 1], f[i]))
            && (tag in st.live <==> f != [])
            && (f != [] ==> SamePayload(f[|f| - 1], st.live[tag]))
  {
    SuppressionIsLossless(input, tag);
    DeStutterHasNoStutter(Merged(OfTag(tag, input)));
  }

  function CountArrivals(es: seq<Event>): nat {
    if es == [] then 0 else CountArrivals(es[..|es| - 1]) + (if es[|es| - 1].Arrive? then 1 else 0)
  }

  /** Marking goes through the ids from front to back. */
  lemma {:induction false} MarkingGoesInOrder(live: map<string, Sample>, a: seq<string>, b: seq<string>, quality: int, time: Option<int>)
    ensures var (first, x) := MarkAll(live, a, quality, time);
            var (second, y) := MarkAll(first, b, quality, time);
            MarkAll(live, a + b, quality, time) == (second, x + y)
  {
    var first, x := MarkAll(live, a, quality, time).0, MarkAll(live, a, quality, time).1;
    if b == [] {
      assert a + b == a && x + [] == x;
    } else {
      var n := |b| - 1;
      MarkingGoesInOrder(live, a, b[..n], quality, time);
      assert (a + b)[..|a + b| - 1] == a + b[..n];
      var before, y := MarkAll(first, b[..n], quality, time).0, MarkAll(first, b[..n], quality, time).1;
      var after := MarkOne(before, b[n], quality, time);
      if after != before { assert (x + y) + [after[b[n]]] == x + (y + [after[b[n]]]); }
    }
  }

  /** A stored sample after its tag was named, or not, in a marking. */
  function Marked(x: Sample, named: bool, quality: int, time: Option<int>): Sample {
    if !named || x.quality == quality then x
    else if time.Some? then x.(quality := quality, time := time.value)
    else x.(quality := quality)
  }

  /** Marking sets the quality of exactly the stored tags named, and their time where it changed one. */
  lemma {:induction false} MarkingMeans(live: map<string, Sample>, ids: seq<string>, quality: int, time: Option<int>, t: string)
    ensures var after := MarkAll(live, ids, quality, time).0;
            after.Keys == live.Keys && (t in live ==> after[t] == Marked(live[t], t in ids, quality, time))
  {
    if ids != [] {
      MarkingMeans(live, ids[..|ids| - 1], quality, time, t);
    }
  }

  lemma MarkOneReports(before: map<string, Sample>, changed: seq<Sample>, id: string, quality: int, time: Option<int>, t: string)
    requires Keyed(before)
    ensures var after := MarkOne(before, id, quality, time);
            && after.Keys == before.Keys
            && OfTag(t, if after == before then changed else changed + [after[id]])
                 == OfTag(t, changed)
                    + if t == id && id in before && before[id].quality != quality then [Marked(before[t], true, quality, time)] else []
  {
    var after := MarkOne(before, id, quality, time);
    if id in before {
      OfTagSnoc(t, changed, after[id]);
      assert after == before <==> before[id].quality == quality;
    }
  }

  /** The last id of a marking. */
  lemma MarkLast(live: map<string, Sample>, ids: seq<string>, quality: int, time: Option<int>)
    returns (init: seq<string>, id: string, before: map<string, Sample>, changed: seq<Sample>, more: seq<Sample>)
    requires Keyed(live) && ids != []
    ensures ids == init + [id] && |init| < |ids|
    ensures (before, changed) == MarkAll(live, init, quality, time) && more == MarkAll(live, ids, quality, time).1
    ensures Keyed(before) && before.Keys == live.Keys
    ensures var after := MarkOne(before, id, quality, time);
            after.Keys == before.Keys && more == if after == before then changed else changed + [after[id]]
  {
    init, id := ids[..|ids| - 1], ids[|ids| - 1];
    before, changed := MarkAll(live, init, quality, time).0, MarkAll(live, init, quality, time).1;
    more := MarkAll(live, ids, quality, time).1;
    MarkKeepsValues(live, init, quality, time);
  }

  /** It reports the tags whose quality it changed, once each, as they are then stored. */
  lemma {:induction false} MarkingReports(live: map<string, Sample>, ids: seq<string>, quality: int, time: Option<int>, t: string)
    returns (changed: seq<Sample>)
    requires Keyed(live)
    ensures changed == MarkAll(live, ids, quality, time).1
    ensures OfTag(t, changed) ==
            if t in live && t in ids && live[t].quality != quality then [Marked(live[t], true, quality, time)] else []
    decreases |ids|
  {
    changed := [];
    if ids != [] {
      var init, id, before, earlier, more := MarkLast(live, ids, quality, time);
      var reported := MarkingReports(live, init, quality, time, t);
      MarkingMeans(live, init, quality, time, t);
      MarkOneReports(before, earlier, id, quality, time, t);
      changed := more;
    }
  }

  lemma {:induction false} MarkKeepsValues(live: map<string, Sample>, ids: seq<string>, quality: int, time: Option<int>)
    requires Keyed(live)
    ensures var after := MarkAll(live, ids, quality, time).0;
            after.Keys == live.Keys && Keyed(after) && forall t | t in live :: ValuesOf(after[t]) == ValuesOf(live[t])
  {
    if ids != [] {
      MarkKeepsValues(live, ids[..|ids| - 1], quality, time);
    }
  }

  predicate SameValues(a: Option<Sample>, b: Option<Sample>) {
    (a.None? <==> b.None?) && (a.Some? && b.Some? ==> ValuesOf(a.value) == ValuesOf(b.value))
  }

  ghost predicate ValuesForwarded(st: State, tag: string) {
    SameValues(Lookup(st.live, tag), LastOf(OfTag(tag, st.forwarded)))
  }

  lemma ValuesArrive(st: State, s: Sample, tag: string)
    requires Keyed(st.live) && ValuesForwarded(st, tag)
    ensures ValuesForwarded(Step(st, Arrive(s)), tag)
  {
    ArriveOnTag(st, s, tag);
    var prev := Lookup(st.live, tag);
    var merged := Merge(prev, s);
    if s.tagId == tag && Unchanged(prev, merged) {
      SamePayloadIsEquality(prev.value, merged);
    }
  }

  lemma CountsStep(st: State, e: Event)
    ensures var after := Step(st, e); var n := if e.Arrive? then 1 else 0;
            && |after.forwarded| + after.suppressed == |st.forwarded| + st.suppressed + n
            && |after.broadcast| == |st.broadcast| + n
  {
  }

  /**
   With quality marks between the arrivals, every arrival is still forwarded or counted as
   suppressed, and the value fields of the store are those last forwarded for the tag.
   */
  lemma {:induction false} MarksLoseNoValue(es: seq<Event>, tag: string)
    ensures var st := Run(EMPTY, es);
            && Keyed(st.live)
            && CountArrivals(es) == |st.forwarded| + st.suppressed == |st.broadcast|
            && ValuesForwarded(st, tag)
  {
    if es != [] {
      var n := |es| - 1;
      MarksLoseNoValue(es[..n], tag);
      var before := Run(EMPTY, es[..n]);
      CountsStep(before, es[n]);
      match es[n] {
        case Mark(ids, quality, time) =>
          MarkKeepsValues(before.live, ids, quality, time);
        case Arrive(s) =>
          ArriveOnTag(before, s, tag);
          ValuesArrive(before, s, tag);
      }
    }
  }
}
