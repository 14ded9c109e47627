/** The store of latest samples, updated in place, and the sequential fan-in loop over it. */
module FanIn {
  import opened Wrappers
  import opened Samples
  import opened FanInSpec

  const MAX_POLL_INTERVALS := 5
  const NANOS_PER_MILLI := 1000000

  /** lastRecv is a clock reading in nanoseconds, 0 for Go's zero time; intervals are milliseconds, newest last. */
  datatype Entry = Entry(sample: Sample, lastRecv: int, intervals: seq<int>) {
    ghost predicate Valid(tagId: string) {
      sample.tagId == tagId && |intervals| <= MAX_POLL_INTERVALS && forall i | 0 <= i < |intervals| :: intervals[i] > 0
    }
  }

  class Live {
    var byID: map<string, Entry>

    ghost predicate Valid()
      reads this
    {
      forall t | t in byID :: byID[t].Valid(t)
    }

    ghost function Contents(): map<string, Sample>
      reads this
    {
      map t | t in byID :: byID[t].sample
    }

    constructor ()
      ensures Valid() && Contents() == map[]
    {
      byID := map[];
    }

    method PutEntry(tagId: string, e: Entry)
      requires Valid() && e.Valid(tagId)
      modifies this
      ensures Valid() && byID == old(byID)[tagId := e] && Contents() == old(Contents())[tagId := e.sample]
    {
      byID := byID[tagId := e];
    }

    method Update(s: Sample, now: int)
      requires Valid()
      modifies this
      ensures Valid() && Contents() == old(Contents())[s.tagId := s]
      ensures s.tagId in byID && byID == old(byID)[s.tagId := byID[s.tagId]] && byID[s.tagId].lastRecv == now
      ensures s.tagId !in old(byID) ==> byID[s.tagId].intervals == []
      ensures s.tagId in old(byID) ==>
        var e := old(byID)[s.tagId]; var ms := (now - e.lastRecv) / 1_000_000;
        byID[s.tagId].intervals ==
          if e.lastRecv == 0 || ms <= 0 then e.intervals
          else if |e.intervals| < 5 then e.intervals + [ms]
          else e.intervals[1..] + [ms]
    {
      if s.tagId !in byID {
        PutEntry(s.tagId, Entry(s, now, []));
        return;
      }
      var ent := byID[s.tagId];
      assert ent.Valid(s.tagId);
      if ent.lastRecv != 0 {
        var ms := (now - ent.lastRecv) / NANOS_PER_MILLI;
        if ms > 0 {
          ent := ent.(intervals := ent.intervals + [ms]);
          if |ent.intervals| > MAX_POLL_INTERVALS {
            ent := ent.(intervals := ent.intervals[|ent.intervals| - MAX_POLL_INTERVALS..]);
          }
        }
      }
      ent := ent.(sample := s, lastRecv := now);
      PutEntry(s.tagId, ent);
    }

    method Get(tagId: string) returns (r: Option<Sample>)
      ensures r == Lookup(Contents(), tagId)
    {
      r := if tagId in byID then Some(byID[tagId].sample) else None;
    }

    /** Every stored sample once, in the map's arbitrary order. */
    method All() returns (out: seq<Sample>)
      requires Valid()
      ensures IsSnapshot(out, Contents())
    {
      out := [];
      var left := byID.Keys;
      while left != {}
        invariant left <= byID.Keys && |out| + |left| == |byID.Keys|
        invariant forall i | 0 <= i < |out| :: out[i].tagId in byID && byID[out[i].tagId].sample == out[i]
        invariant forall t | t in byID :: t in left || byID[t].sample in out
        decreases |left|
      {
        var t :| t in left;
        assert byID[t].Valid(t);
        out := out + [byID[t].sample];
        left := left - {t};
      }
      assert Contents().Keys == byID.Keys;
      assert |Contents()| == |Contents().Keys|;
    }

    method Clear() returns (n: nat)
      modifies this
      ensures n == |old(Contents())| && byID == map[] && Valid() && Contents() == map[]
    {
      assert Contents().Keys == byID.Keys && |Contents()| == |Contents().Keys|;
      n := |byID|;
      byID := map[];
    }

    /** time is None when the sample times are to be preserved. */
    method MarkQuality(ids: seq<string>, quality: int, time: Option<int>) returns (out: seq<Sample>)
      requires Valid()
      modifies this
      ensures Valid() && (Contents(), out) == MarkAll(old(Contents()), ids, quality, time)
    {
      out := [];
      for i := 0 to |ids|
        invariant Valid() && (Contents(), out) == MarkAll(old(Contents()), ids[..i], quality, time)
      {
        MarkOneMore(old(Contents()), ids, i, quality, time);
        if ids[i] in byID && byID[ids[i]].sample.quality != quality {
          var ent := byID[ids[i]];
          assert ent.Valid(ids[i]);
          ent := ent.(sample := ent.sample.(quality := quality));
          if time.Some? {
            ent := ent.(sample := ent.sample.(time := time.value));
          }
          ghost var before := Contents();
          byID := byID[ids[i] := ent];
          assert Contents() == before[ids[i] := ent.sample];
          out := out + [ent.sample];
        }
      }
      assert ids[..|ids|] == ids;
    }
  }

  /**
   The fan-in loop up to the closing of its input channel. clock(i) is the reading taken while
   sample i is stored; broadcast is what the WebSocket hub is given.
   */
  method FanIn(input: seq<Sample>, clock: nat -> int, live: Live)
    returns (out: seq<Sample>, broadcast: seq<Sample>, suppressed: nat)
    requires live.Valid()
    modifies live
    ensures live.Valid()
    ensures State(live.Contents(), broadcast, out, suppressed) == Run(Start(old(live.Contents())), Arrivals(input))
  {
    out, broadcast, suppressed := [], [], 0;
    ghost var st := Start(live.Contents());
    for i := 0 to |input|
      invariant live.Valid()
      invariant st == Run(Start(old(live.Contents())), Arrivals(input[..i]))
      invariant State(live.Contents(), broadcast, out, suppressed) == st
    {
      ghost var before := st;
      st := RunOneMore(Start(old(live.Contents())), input, i);
      var s := input[i];
      var prev := live.Get(s.tagId);
      if prev.Some? && s.quality != QUALITY_GOOD && s.num.None? && s.text.None? && s.flag.None? {
        var merged := prev.value;
        merged := merged.(time := s.time);
        merged := merged.(quality := s.quality);
        s := merged;
      }
      assert s == Merge(Lookup(before.live, input[i].tagId), input[i]);
      var same := prev.Some? && SamePayload(prev.value, s);
      live.Update(s, clock(i));
      broadcast := broadcast + [s];
      if same {
        suppressed := suppressed + 1;
        continue;
      }
      out := out + [s];
    }
    assert input[..|input|] == input;
  }

  /** What the historian's batch write answers; Absent is a nil write function. */
  datatype Writer = Absent | Accepts | Fails

  /** The snapshot's own slice is given the fresh time in place. */
  method Restamp(snap: seq<Sample>, now: int) returns (batch: seq<Sample>)
    ensures |batch| == |snap| && forall i | 0 <= i < |snap| :: batch[i] == snap[i].(time := now)
  {
    var slice := new Sample[|snap|](i requires 0 <= i < |snap| => snap[i]);
    for i := 0 to slice.Length
      invariant forall j | 0 <= j < slice.Length :: slice[j] == if j < i then snap[j].(time := now) else snap[j]
    {
      slice[i] := slice[i].(time := now);
    }
    batch := slice[..];
  }

  /**
   After a wipe: snapshot the store, clear it, and write the snapshot back with fresh times.
   batch is what the writer was handed; it was kept only when written says so.
   */
  method ReseedAfterWipe(live: Live?, writer: Writer, now: int)
    returns (cleared: nat, written: nat, failed: bool, batch: seq<Sample>)
    requires live != null ==> live.Valid()
    modifies live
    ensures live == null ==> cleared == written == 0 && !failed && batch == []
    ensures live != null ==> live.Valid() && live.Contents() == map[] && cleared == |old(live.Contents())|
    ensures live != null && writer != Absent ==> IsSnapshot(batch, Restamped(old(live.Contents()), now))
    ensures writer == Absent ==> batch == []
    ensures failed <==> writer == Fails && batch != []
    ensures written == if failed then 0 else |batch|
  {
    cleared, written, failed, batch := 0, 0, false, [];
    if live == null {
      return;
    }
    var snap := live.All();
    ghost var before := live.Contents();
    cleared := live.Clear();
    if |snap| == 0 || writer == Absent {
      return;
    }
    batch := Restamp(snap, now);
    RestampedSnapshot(snap, before, now, batch);
    if writer == Fails {
      failed := true;
      return;
    }
    written := |snap|;
  }
}
