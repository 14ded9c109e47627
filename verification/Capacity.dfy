/** The full-disk policy in front of every batch write: trim the oldest data, admit, spool or halt. */
module Capacity {
  import opened Wrappers
  import opened ChunkPlan
  import Replay = FlushReplay
  import Samples

  const MAX_CHUNKS_PASS := 64
  const MAX_TRIM_PASSES := 4
  const MAX_DELETE_ROUNDS := 32

  /** How the database answers one statement: truly, with an error, or with a number of its own. */
  datatype Fault = Honest | Failing | Claims(n: int)

  /** The database behind the pool; faults(k) governs its k-th statement. */
  class Database {
    const base: int
    const faults: nat -> Fault
    var chunks: seq<Chunk>
    var bounds: Option<(int, int)> // oldest and newest sample
    var calls: nat
    ghost var drops: nat           // history: drop statements that went through, deletes that removed rows

    constructor (base: int, faults: nat -> Fault, chunks: seq<Chunk>, bounds: Option<(int, int)>)
      ensures this.base == base && this.faults == faults && this.chunks == chunks && this.bounds == bounds
      ensures calls == 0 && drops == 0
    {
      this.base, this.faults, this.chunks, this.bounds, calls, drops := base, faults, chunks, bounds, 0, 0;
    }

    ghost function Used(): int
      reads this
    {
      base + Total(chunks)
    }

    ghost predicate HonestFromNow()
      reads this
    {
      forall k: nat | calls <= k :: faults(k) == Honest
    }

    /** What statement k answers when it asks for the size now. */
    ghost function SizeAnswer(k: nat): Result<int>
      reads this
    {
      match faults(k) case Honest => Ok(Used()) case Failing => Err case Claims(n) => Ok(n)
    }

    /** There is a chunk besides the newest, or a time slice, to drop. */
    ghost predicate Droppable()
      reads this
    {
      |chunks| > 1 || (bounds.Some? && bounds.value.0 < bounds.value.1)
    }

    /** pg_database_size. */
    method Size() returns (r: Result<int>)
      modifies this`calls
      ensures calls == old(calls) + 1 && r == SizeAnswer(old(calls))
    {
      r := match faults(calls) { case Honest => Ok(base + Total(chunks)) case Failing => Err case Claims(n) => Ok(n) };
      calls := calls + 1;
    }

    /** The chunks with their sizes, oldest first. */
    method ListChunks() returns (r: Result<seq<Chunk>>)
      modifies this`calls
      ensures calls == old(calls) + 1
      ensures faults(old(calls)) == Honest ==> r == Ok(chunks)
    {
      match faults(calls) {
        case Honest => r := Ok(chunks);
        case Failing => r := Err;
        case Claims(n) =>
          r := Ok(seq(|chunks|, i requires 0 <= i < |chunks| reads this => Chunk(chunks[i].start, chunks[i].end, n)));
      }
      calls := calls + 1;
    }

    /** drop_chunks; the result is the number of rows it reports. */
    method DropChunks(cutoff: int) returns (r: Result<int>)
      modifies this`calls, this`chunks, this`drops
      ensures calls == old(calls) + 1
      ensures r.Err? <==> faults(old(calls)) == Failing
      ensures r.Ok? ==> chunks == DropOlder(old(chunks), cutoff) && drops == old(drops) + 1
      ensures r.Err? ==> chunks == old(chunks) && drops == old(drops)
    {
      var fault := faults(calls);
      calls := calls + 1;
      if fault == Failing {
        return Err;
      }
      var rest := DropOlder(chunks, cutoff);
      r := Ok(if fault.Claims? then fault.n else |chunks| - |rest|);
      chunks, drops := rest, drops + 1;
    }

    /** DELETE of the samples before the cut: the number of rows it removed. */
    method DeleteBefore(cut: int) returns (r: Result<int>)
      modifies this`calls, this`drops
      ensures calls == old(calls) + 1
      ensures drops == old(drops) + (if r.Ok? && r.value != 0 then 1 else 0)
    {
      r := match faults(calls) { case Honest => Ok(1) case Failing => Err case Claims(n) => Ok(n) };
      calls := calls + 1;
      if r.Ok? && r.value != 0 {
        drops := drops + 1;
      }
    }

    /** The oldest chunk, or failing that the oldest time slice; n is never zero without an error. */
    method DropOldestChunk() returns (r: Result<nat>)
      modifies this`calls, this`chunks, this`drops
      ensures calls >= old(calls)
      ensures r.Ok? ==> r.value > 0 && drops > old(drops)
      ensures r.Err? ==> drops == old(drops) && chunks == old(chunks)
      ensures faults(old(calls)) == Honest && |old(chunks)| > 1 && faults(old(calls) + 1) != Failing ==>
        r.Ok? && chunks == DropOlder(old(chunks), old(chunks)[1].start)
      ensures !(faults(old(calls)) == Honest && |old(chunks)| > 1) && chunks != old(chunks) ==>
        bounds.Some? && bounds.value.0 < bounds.value.1
        && chunks == DropOlder(old(chunks), SliceCut(bounds.value.0, bounds.value.1))
      ensures old(HonestFromNow() && Sized(chunks)) ==> Sized(chunks) && Used() <= old(Used())
      ensures old(HonestFromNow()) ==> (r.Ok? <==> old(Droppable()))
    {
      var fault := faults(calls);
      calls := calls + 1;
      if fault == Honest && |chunks| > 1 {
        if Sized(chunks) { DropShrinks(chunks, chunks[1].start); }
        var rows := DropChunks(chunks[1].start);
        if rows.Ok? {
          return Ok(if rows.value <= 0 then 1 else rows.value);
        }
      }
      fault := faults(calls);
      calls := calls + 1;
      if fault == Failing || bounds.None? || bounds.value.1 <= bounds.value.0 {
        return Err;
      }
      var cut := SliceCut(bounds.value.0, bounds.value.1);
      if Sized(chunks) { DropShrinks(chunks, cut); }
      var dropped := DropChunks(cut);
      if dropped.Ok? {
        return Ok(1);
      }
      var deleted := DeleteBefore(cut);
      if deleted.Err? || deleted.value == 0 {
        return Err;
      }
      r := Ok(1);
    }
  }

  // ---- thresholds ---------------------------------------------------------------------------

  /** Start trimming at 90 percent of the limit. */
  function Approach(limit: int): int
    requires limit > 0
  {
    var a := limit * 90 / 100;
    if a < 1 then 1 else a
  }

  /** Trim down to 85 percent of the limit, and below it whenever that is possible. */
  function Target(limit: int): int
    requires limit > 0
  {
    var t := limit * 85 / 100;
    var t' := if t < 1 then 1 else t;
    if t' >= limit then (if limit - 1 < 1 then 1 else limit - 1) else t'
  }

  lemma ThresholdsAreOrdered(limit: int)
    requires limit > 0
    ensures 1 <= Target(limit) <= Approach(limit) <= limit
    ensures Target(limit) < limit <==> limit >= 2
  {
  }

  /** Exact sizes, and droppable oldest chunks, at most this many, that cover what is over the target. */
  ghost predicate Coverable(chunks: seq<Chunk>, base: int, target: int, most: nat) {
    && Chronological(chunks) && Sized(chunks)
    && exists k :: 1 <= k <= Least(most, |chunks| - 1) && base + Total(chunks[k..]) <= target
  }

  /**
   A planned drop in a database that means what it says: one credited with the excess reaches the
   target, any other drops the most it may, and it is credited whenever that many chunks cover it.
   */
  ghost predicate PlanCarriedOut(before: seq<Chunk>, after: seq<Chunk>, base: int, target: int, need: int, freed: int) {
    && (freed >= need ==> base + Total(after) <= target)
    && (freed < need ==> before != [] && after == before[Least(MAX_CHUNKS_PASS, |before| - 1)..])
    && (Coverable(before, base, target, MAX_CHUNKS_PASS) && target <= base + Total(before) ==> freed >= need)
  }

  lemma PlanReachesTarget(chunks: seq<Chunk>, base: int, target: int, need: int, n: nat, cutoff: int, freed: int)
    requires Chronological(chunks) && Sized(chunks)
    requires var used := base + Total(chunks);
             need == (if used - target < 1 then 1 else used - target)
             && IsPlan(chunks, need, used, MAX_CHUNKS_PASS, n, cutoff, freed)
    ensures PlanCarriedOut(chunks, DropOlder(chunks, cutoff), base, target, need, freed)
  {
    var used, most := base + Total(chunks), Least(MAX_CHUNKS_PASS, |chunks| - 1);
    var guess := Guess(chunks, used);
    ChronologicalDropsPrefix(chunks, n);
    FreedIsExact(chunks, n, guess);
    if Coverable(chunks, base, target, MAX_CHUNKS_PASS) && target <= used {
      var k: nat :| 1 <= k <= most && base + Total(chunks[k..]) <= target;
      FreedIsExact(chunks, k, guess);
      FreedGrows(chunks, k, most, guess);
      FreedGrows(chunks, 1, n, guess);
    }
  }

  lemma {:induction false} FreedGrows(chunks: seq<Chunk>, k: nat, n: nat, guess: int)
    requires k <= n <= |chunks| && guess >= 1
    ensures Freed(chunks, k, guess) <= Freed(chunks, n, guess) && (n > 0 ==> Freed(chunks, n, guess) > 0)
    decreases n
  {
    if n > 0 {
      FreedGrows(chunks, if k < n then k else n - 1, n - 1, guess);
    }
  }

  /** They are 90 and 85 percent of the limit, rounded down, but at least one byte and below it where possible. */
  lemma ThresholdsArePercentages(limit: int)
    requires limit >= 2
    ensures 100 * Approach(limit) <= 90 * limit < 100 * Approach(limit) + 100
    ensures limit >= 7 ==> 100 * Target(limit) <= 85 * limit < 100 * Target(limit) + 100
    ensures limit < 7 ==> Target(limit) == limit - 1
  {
  }

  // ---- the trim -----------------------------------------------------------------------------

  const MAX_DROPS := MAX_TRIM_PASSES * MAX_CHUNKS_PASS + MAX_DELETE_ROUNDS

  /** The honest database with enough droppable chunks. */
  ghost predicate Exact(db: Database, target: int, most: nat)
    reads db
  {
    db.HonestFromNow() && Coverable(db.chunks, db.base, target, most)
  }

  /** Of the chunks at the start the j oldest are gone, or the target is reached. */
  ghost predicate Trimmed(chunks: seq<Chunk>, base: int, start: seq<Chunk>, j: nat, target: int) {
    Sized(chunks) && (base + Total(chunks) <= target || (j < |start| && chunks == start[j..]))
  }

  /** List, plan and drop; executed says the statement went through, and n what it is credited with. */
  method PlannedDrop(db: Database, target: int, need: int, used: int) returns (executed: bool, n: int, freed: int)
    requires need == if used - target < 1 then 1 else used - target
    modifies db`calls, db`chunks, db`drops
    ensures db.calls >= old(db.calls)
    ensures executed ==> db.drops == old(db.drops) + 1 && n > 0 && freed > 0
    ensures !executed ==> db.drops == old(db.drops) && db.chunks == old(db.chunks)
    ensures old(db.HonestFromNow() && Sized(db.chunks)) ==> Sized(db.chunks) && db.Used() <= old(db.Used())
    ensures old(db.HonestFromNow() && Chronological(db.chunks) && Sized(db.chunks)) && |old(db.chunks)| > 1
            && used == old(db.Used()) ==>
      executed && PlanCarriedOut(old(db.chunks), db.chunks, db.base, target, need, freed)
    ensures old(db.HonestFromNow()) ==> (executed <==> |old(db.chunks)| > 1)
  {
    executed, n, freed := false, 0, 0;
    ghost var before := db.chunks;
    var listed := db.ListChunks();
    if listed.Ok? && |listed.value| > 1 {
      var nDrop, cutoff, est, ok := PlanChunkDrop(listed.value, need, used, MAX_CHUNKS_PASS);
      if ok {
        FreedGrows(listed.value, nDrop, nDrop, Guess(listed.value, used));
        if Sized(before) { DropShrinks(before, cutoff); }
        var tag := db.DropChunks(cutoff);
        if tag.Ok? {
          executed, n, freed := true, if tag.value <= 0 then nDrop else tag.value, est;
          if listed.value == before && used == old(db.Used()) && Chronological(before) && Sized(before) {
            PlanReachesTarget(before, db.base, target, need, nDrop, cutoff, est);
          }
        }
      }
    }
  }

  /** What k chunks cover, more of the oldest chunks cover too. */
  lemma DroppedEnough(start: seq<Chunk>, base: int, target: int, most: nat, j: nat)
    requires Coverable(start, base, target, most) && Least(most, |start| - 1) <= j <= |start|
    ensures base + Total(start[j..]) <= target
  {
    var k: nat :| 1 <= k <= Least(most, |start| - 1) && base + Total(start[k..]) <= target;
    TotalOfSuffix(start, k, j);
  }

  lemma SuffixIsChronological(start: seq<Chunk>, j: nat)
    requires Chronological(start) && Sized(start) && j <= |start|
    ensures Chronological(start[j..]) && Sized(start[j..])
  {
  }

  /** While the target is not reached there is more than one chunk, and they are as they were at the start. */
  lemma StillSomeToDrop(chunks: seq<Chunk>, base: int, start: seq<Chunk>, j: nat, target: int, most: nat)
    requires Trimmed(chunks, base, start, j, target) && Coverable(start, base, target, most)
    ensures base + Total(chunks) <= target || (|chunks| > 1 && Chronological(chunks))
  {
    if base + Total(chunks) > target {
      var k: nat :| 1 <= k <= Least(most, |start| - 1) && base + Total(start[k..]) <= target;
      if k <= j { TotalOfSuffix(start, k, j); }
      SuffixIsChronological(start, j);
    }
  }

  lemma SliceOfSuffix(start: seq<Chunk>, j: nat, m: nat)
    requires j + m <= |start|
    ensures start[j..][m..] == start[j + m..]
  {
  }

  /** One more pass or round: dropping the next few oldest chunks, or all but the newest. */
  lemma OneMoreDrop(after: seq<Chunk>, before: seq<Chunk>, base: int, start: seq<Chunk>, j: nat, few: nat, target: int, most: nat)
    requires Trimmed(before, base, start, j, target) && Coverable(start, base, target, most) && few >= 1
    requires Sized(after) && Total(after) <= Total(before)
    requires |before| > 1 && Chronological(before) ==>
      base + Total(after) <= target || after == before[Least(few, |before| - 1)..]
    ensures Trimmed(after, base, start, j + few, target)
  {
    if base + Total(after) > target {
      StillSomeToDrop(before, base, start, j, target, most);
      var m := Least(few, |before| - 1);
      SliceOfSuffix(start, j, m);
      assert after == start[j + m..];
      if m < few {
        assert j + m == |start| - 1;
        DroppedEnough(start, base, target, most, j + m);
      }
    }
  }

  /**
   dropOldestUntilUnder. dropped is positive exactly when a drop or delete went through. In an
   honest database four passes of 64 chunks and 32 single rounds reach the target whenever that many
   of the oldest chunks cover the excess; 64 chunks that cover it need only one pass.
   */
  method DropOldestUntilUnder(db: Database, target: int) returns (dropped: nat, estFreed: int, failed: bool)
    modifies db`calls, db`chunks, db`drops
    ensures db.drops >= old(db.drops) && estFreed >= 0
    ensures dropped > 0 <==> db.drops > old(db.drops)
    ensures estFreed > 0 ==> dropped > 0
    ensures db.calls >= old(db.calls)
    ensures old(Exact(db, target, 64)) && target <= old(db.Used()) ==> !failed
    ensures old(Exact(db, target, 288)) ==> db.Used() <= target
    ensures old(db.HonestFromNow()) ==>
      if old(db.Used()) < target then !failed && db.chunks == old(db.chunks) && db.drops == old(db.drops)
      else if old(db.Droppable()) then db.drops > old(db.drops)
      else failed && db.chunks == old(db.chunks) && db.drops == old(db.drops)
  {
    dropped, estFreed, failed := 0, 0, false;
    ghost var start := db.chunks;
    ghost var trims := Exact(db, target, MAX_DROPS);
    ghost var atOnce := Exact(db, target, MAX_CHUNKS_PASS) && target <= db.Used();
    for pass := 0 to MAX_TRIM_PASSES
      invariant db.calls >= old(db.calls) && db.drops >= old(db.drops) && estFreed >= 0
      invariant dropped > 0 <==> db.drops > old(db.drops)
      invariant estFreed > 0 ==> dropped > 0
      invariant atOnce ==> pass == 0 && Exact(db, target, MAX_CHUNKS_PASS) && target <= db.Used()
      invariant trims ==> db.HonestFromNow() && Trimmed(db.chunks, db.base, start, pass * MAX_CHUNKS_PASS, target)
      invariant old(db.HonestFromNow()) && pass > 0 ==> old(db.Used()) >= target && old(db.Droppable()) && dropped > 0
      invariant pass == 0 ==> db.chunks == start && db.drops == old(db.drops)
    {
      var stop;
      dropped, estFreed, stop, failed := TrimPass(db, target, dropped, estFreed, start, pass * MAX_CHUNKS_PASS);
      if stop {
        return;
      }
    }
    dropped, estFreed, failed := DeleteRounds(db, target, dropped, estFreed, start);
  }

  /** One pass: a planned drop of at most 64 chunks, or failing that of one chunk or slice. */
  method TrimPass(db: Database, target: int, dropped0: nat, estFreed0: int, ghost start: seq<Chunk>, ghost gone: nat)
    returns (dropped: nat, estFreed: int, stop: bool, failed: bool)
    requires estFreed0 >= 0
    modifies db`calls, db`chunks, db`drops
    ensures db.calls >= old(db.calls) && db.drops >= old(db.drops) && estFreed >= estFreed0 && dropped >= dropped0
    ensures dropped > dropped0 <==> db.drops > old(db.drops)
    ensures estFreed > estFreed0 ==> dropped > dropped0
    ensures failed ==> stop
    ensures old(Exact(db, target, MAX_CHUNKS_PASS)) && target <= old(db.Used()) ==> stop && !failed
    ensures old(db.HonestFromNow() && Trimmed(db.chunks, db.base, start, gone, target)) && Coverable(start, db.base, target, MAX_DROPS) ==>
      && (stop ==> db.Used() <= target)
      && db.HonestFromNow() && Trimmed(db.chunks, db.base, start, gone + MAX_CHUNKS_PASS, target)
    ensures old(db.HonestFromNow()) ==>
      if old(db.Used()) < target then stop && !failed && db.chunks == old(db.chunks) && db.drops == old(db.drops)
      else if old(db.Droppable()) then db.drops > old(db.drops)
      else failed && db.chunks == old(db.chunks) && db.drops == old(db.drops)
  {
    dropped, estFreed, stop, failed := dropped0, estFreed0, true, false;
    ghost var before := db.chunks;
    ghost var trims := db.HonestFromNow() && Trimmed(before, db.base, start, gone, target)
      && Coverable(start, db.base, target, MAX_DROPS);
    if trims { StillSomeToDrop(before, db.base, start, gone, target, MAX_DROPS); }
    var size := db.Size();
    if size.Err? {
      failed := true;
      return;
    }
    var used := size.value;
    if used < target {
      return;
    }
    var need := used - target;
    if need < 1 {
      need := 1;
    }
    var executed, nExec, freed := PlannedDrop(db, target, need, used);
    if executed {
      dropped := dropped + nExec;
      estFreed := estFreed + freed;
      stop := freed >= need;
      if trims { OneMoreDrop(db.chunks, before, db.base, start, gone, MAX_CHUNKS_PASS, target, MAX_DROPS); }
      return;
    }
    var one := db.DropOldestChunk();
    if one.Err? || one.value == 0 {
      failed := true;
      return;
    }
    dropped, stop := dropped + one.value, false;
    estFreed := estFreed + need / MAX_TRIM_PASSES;
    if estFreed < 1 {
      estFreed := 1;
    }
  }

  /** The extra single drops once the passes are used up. */
  method DeleteRounds(db: Database, target: int, dropped0: nat, estFreed0: int, ghost start: seq<Chunk>)
    returns (dropped: nat, estFreed: int, failed: bool)
    requires estFreed0 >= 0
    modifies db`calls, db`chunks, db`drops
    ensures db.calls >= old(db.calls) && db.drops >= old(db.drops) && estFreed >= estFreed0 && dropped >= dropped0
    ensures dropped > dropped0 <==> db.drops > old(db.drops)
    ensures estFreed > estFreed0 ==> dropped > dropped0
    ensures old(db.HonestFromNow() && Trimmed(db.chunks, db.base, start, MAX_TRIM_PASSES * MAX_CHUNKS_PASS, target))
            && Coverable(start, db.base, target, MAX_DROPS) ==>
      db.Used() <= target
  {
    ghost var passes := MAX_TRIM_PASSES * MAX_CHUNKS_PASS;
    ghost var trims := db.HonestFromNow() && Trimmed(db.chunks, db.base, start, passes, target)
      && Coverable(start, db.base, target, MAX_DROPS);
    dropped, estFreed, failed := dropped0, estFreed0, false;
    for round := 0 to MAX_DELETE_ROUNDS
      invariant db.calls >= old(db.calls) && db.drops >= old(db.drops) && estFreed >= estFreed0 && dropped >= dropped0
      invariant dropped > dropped0 <==> db.drops > old(db.drops)
      invariant estFreed > estFreed0 ==> dropped > dropped0
      invariant trims ==> db.HonestFromNow() && Trimmed(db.chunks, db.base, start, passes + round, target)
    {
      var size := db.Size();
      if size.Err? {
        return dropped, estFreed, true;
      }
      if size.value < target {
        return;
      }
      ghost var before := db.chunks;
      var one := db.DropOldestChunk();
      if trims {
        if |before| > 1 && Chronological(before) { ChronologicalDropsPrefix(before, 1); }
        OneMoreDrop(db.chunks, before, db.base, start, passes + round, 1, target, MAX_DROPS);
      }
      if one.Err? {
        return dropped, estFreed, true;
      }
      if one.value == 0 {
        return dropped, estFreed, true;
      }
      dropped := dropped + one.value;
      estFreed := estFreed + 1;
    }
    if trims && db.Used() > target { DroppedEnough(start, db.base, target, MAX_DROPS, MAX_DROPS); }
  }

  // ---- the verdict ----------------------------------------------------------------------------

  datatype Verdict = Admit | Busy | Halt

  /** The size allows a write: the last answer was below the limit, or there was none and the first was. */
  predicate Below(limit: int, used: int, last: Result<int>) {
    match last case Ok(n) => n < limit case Err => used < limit
  }

  /**
   At or above the approach threshold the write is admitted exactly when the size asked for after the
   trim was below the limit, or could not be read and was below it before; otherwise it halts exactly
   when no drop or delete went through and the trim or the size query failed, and is busy when
   something was dropped. Below the threshold nothing is touched. In an honest database a write is
   admitted exactly when there is room, and halts exactly when there is none and nothing to drop.
   When the droppable chunks cover the excess it is admitted, with the target reached.
   */
  method EnforceDropOldest(db: Database, limit: int, used: int)
    returns (v: Verdict, ghost last: Result<int>, ghost trimFailed: bool)
    requires limit > 0
    modifies db`calls, db`chunks, db`drops
    ensures db.drops >= old(db.drops) && db.calls >= old(db.calls)
    ensures used < Approach(limit) ==> v == Admit && db.drops == old(db.drops) && db.chunks == old(db.chunks)
    ensures used >= Approach(limit) ==>
      && db.calls > old(db.calls) && last == db.SizeAnswer(db.calls - 1)
      && (v == Admit <==> Below(limit, used, last))
      && (v == Halt <==> !Below(limit, used, last) && db.drops == old(db.drops) && (last.Err? || trimFailed))
    ensures old(db.HonestFromNow()) ==>
      && (v == Admit <==> used < Approach(limit) || db.Used() < limit)
      && (v == Halt <==> used >= Approach(limit) && old(db.Used()) >= limit && !old(db.Droppable()))
    ensures limit >= 2 && used == old(db.Used()) >= Approach(limit)
            && old(Exact(db, Target(limit), 288)) ==>
      v == Admit && db.Used() <= Target(limit) < limit
  {
    var approach := limit * 90 / 100;
    if approach < 1 {
      approach := 1;
    }
    var target := limit * 85 / 100;
    if target < 1 {
      target := 1;
    }
    if target >= limit {
      target := limit - 1;
      if target < 1 {
        target := 1;
      }
    }
    ThresholdsAreOrdered(limit);
    last, trimFailed := Err, false;
    if used < approach {
      v := Admit;
      return;
    }
    var trimmed, estFreed, failed := DropOldestUntilUnder(db, target);
    var again := db.Size();
    last, trimFailed := again, failed;
    if again.Err? {
      if used < limit {
        v := Admit;
        return;
      }
      if trimmed > 0 || estFreed > 0 {
        v := Busy;
        return;
      }
      v := Halt;
      return;
    }
    if again.value < limit {
      v := Admit;
      return;
    }
    if failed && trimmed == 0 && estFreed == 0 {
      v := Halt;
      return;
    }
    v := Busy;
  }

  datatype Policy = Stop | DropOldest | Rotate | ExpandLimit

  /**
   enforceCapacity; limit comes from the disk or an override and is not positive when unknown. first
   and last are what the size queries answered at the start and after a trim.
   */
  method EnforceCapacity(db: Database, policy: Policy, limit: int)
    returns (v: Verdict, ghost first: Result<int>, ghost last: Result<int>)
    modifies db`calls, db`chunks, db`drops
    ensures db.drops >= old(db.drops)
    ensures first == old(db.SizeAnswer(db.calls))
    ensures v == Admit <==> first.Err? || limit <= 0 || HasRoom(policy, limit, first.value, last)
    ensures Trims(policy, limit, first) ==> db.calls > 0 && last == db.SizeAnswer(db.calls - 1)
    ensures !Trims(policy, limit, first) ==> db.drops == old(db.drops) && db.chunks == old(db.chunks)
    ensures v == Halt ==> db.drops == old(db.drops)
    ensures v == Busy ==> policy == DropOldest
    ensures old(db.HonestFromNow()) && limit > 0 ==>
      && (v == Admit <==> if policy == DropOldest then old(db.Used()) < Approach(limit) || db.Used() < limit
                          else old(db.Used()) < limit)
      && (v == Halt <==> old(db.Used()) >= limit && (policy != DropOldest || !old(db.Droppable())))
  {
    var size := db.Size();
    first, last := size, size;
    if size.Err? || limit <= 0 {
      v := Admit;
      return;
    }
    if policy == DropOldest {
      ThresholdsAreOrdered(limit);
      ghost var trimFailed;
      v, last, trimFailed := EnforceDropOldest(db, limit, size.value);
      return;
    }
    v := if size.value < limit then Admit else Halt;
  }

  /** The first size answer calls for a trim. */
  ghost predicate Trims(policy: Policy, limit: int, first: Result<int>) {
    first.Ok? && limit > 0 && policy == DropOldest && first.value >= Approach(limit)
  }

  /** A write fits: well below the limit, or below it after a trim; the other policies only look once. */
  ghost predicate HasRoom(policy: Policy, limit: int, used: int, last: Result<int>)
    requires limit > 0
  {
    if policy == DropOldest then used < Approach(limit) || Below(limit, used, last) else used < limit
  }

  /** WriteBatch: an empty batch is accepted, and another exactly when there is room or no telling, and it can be inserted. */
  method WriteBatch(db: Database, policy: Policy, limit: int, batch: seq<Samples.Sample>, inserts: bool)
    returns (answer: Replay.Answer, ghost first: Result<int>, ghost last: Result<int>)
    modifies db`calls, db`chunks, db`drops
    ensures answer == Replay.Halted ==> db.drops == old(db.drops) && batch != []
    ensures batch == [] ==> answer == Replay.Accepted && db.drops == old(db.drops)
    ensures batch != [] ==>
      && first == old(db.SizeAnswer(db.calls))
      && (Trims(policy, limit, first) ==> db.calls > 0 && last == db.SizeAnswer(db.calls - 1))
      && (answer == Replay.Accepted <==> inserts && (first.Err? || limit <= 0 || HasRoom(policy, limit, first.value, last)))
    ensures batch != [] && old(db.HonestFromNow()) && limit > 0 ==>
      && (answer == Replay.Accepted <==>
            inserts && (if policy == DropOldest then old(db.Used()) < Approach(limit) || db.Used() < limit
                        else old(db.Used()) < limit))
      && (answer == Replay.Halted <==> old(db.Used()) >= limit && (policy != DropOldest || !old(db.Droppable())))
  {
    first, last := Err, Err;
    if |batch| == 0 {
      answer := Replay.Accepted;
      return;
    }
    var v;
    v, first, last := EnforceCapacity(db, policy, limit);
    match v {
      case Halt => answer := Replay.Halted;
      case Busy => answer := Replay.Busy;
      case Admit => answer := if inserts then Replay.Accepted else Replay.Failed;
    }
  }
}
