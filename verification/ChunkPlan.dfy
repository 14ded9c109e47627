/** Which oldest chunks to drop to free some bytes, and where to cut. Byte counts and times are unbounded integers. */
module ChunkPlan {
  /** A chunk of the hypertable covers [start, end); a size of zero or less is unknown. */
  datatype Chunk = Chunk(start: int, end: int, size: int)

  function KnownTotal(chunks: seq<Chunk>): (r: nat) {
    if chunks == [] then 0
    else
      var n := |chunks| - 1;
      KnownTotal(chunks[..n]) + (if chunks[n].size > 0 then chunks[n].size else 0)
  }

  function KnownCount(chunks: seq<Chunk>): (r: nat)
    ensures r <= |chunks|
  {
    if chunks == [] then 0
    else
      var n := |chunks| - 1;
      KnownCount(chunks[..n]) + (if chunks[n].size > 0 then 1 else 0)
  }

  /** What an unknown chunk is taken to be: the average known size, else an even share, at least a byte. */
  function Guess(chunks: seq<Chunk>, dbUsed: int): (r: int)
    ensures r >= 1
  {
    var avg := if KnownCount(chunks) > 0 then KnownTotal(chunks) / KnownCount(chunks)
               else if dbUsed > 0 && |chunks| > 0 then dbUsed / |chunks| else 0;
    if avg < 1 then 1 else avg
  }

  function Effective(c: Chunk, guess: int): int {
    if c.size <= 0 then guess else c.size
  }

  /** Estimated bytes in the first n chunks. */
  function Freed(chunks: seq<Chunk>, n: nat, guess: int): int
    requires n <= |chunks|
  {
    if n == 0 then 0 else Freed(chunks, n - 1, guess) + Effective(chunks[n - 1], guess)
  }

  function Least(a: int, b: int): int {
    if a < b then a else b
  }

  /** The shortest oldest prefix that frees enough, or the longest allowed one; the newest chunk stays. */
  ghost predicate IsPlan(chunks: seq<Chunk>, need: int, dbUsed: int, maxDrop: int, n: nat, cutoff: int, freed: int) {
    && 1 <= n <= Least(maxDrop, |chunks| - 1)
    && cutoff == chunks[n].start
    && freed == Freed(chunks, n, Guess(chunks, dbUsed))
    && (forall k | 0 <= k < n :: Freed(chunks, k, Guess(chunks, dbUsed)) < need)
    && (freed < need ==> n == Least(maxDrop, |chunks| - 1))
  }

  method PlanChunkDrop(chunks: seq<Chunk>, need: int, dbUsed: int, maxDrop: int)
    returns (n: nat, cutoff: int, freed: int, ok: bool)
    ensures ok <==> |chunks| > 1 && need > 0 && maxDrop >= 1
    ensures ok ==> IsPlan(chunks, need, dbUsed, maxDrop, n, cutoff, freed)
    ensures !ok ==> n == 0 && freed == 0
  {
    n, cutoff, freed, ok := 0, 0, 0, false;
    if |chunks| <= 1 || need <= 0 || maxDrop < 1 {
      return;
    }
    var most := maxDrop;
    if most > |chunks| - 1 {
      most := |chunks| - 1;
    }
    var avg, known := 0, 0;
    for i := 0 to |chunks|
      invariant avg == KnownTotal(chunks[..i]) && known == KnownCount(chunks[..i])
    {
      assert chunks[..i + 1][..i] == chunks[..i];
      if chunks[i].size > 0 {
        avg := avg + chunks[i].size;
        known := known + 1;
      }
    }
    assert chunks[..|chunks|] == chunks;
    if known > 0 {
      avg := avg / known;
    } else if dbUsed > 0 && |chunks| > 0 {
      avg := dbUsed / |chunks|;
    } else {
      assert avg == 0 by { NoneKnown(chunks); }
    }
    if avg < 1 {
      avg := 1;
    }
    for i := 0 to most
      invariant n == i && freed == Freed(chunks, n, avg) && (n > 0 ==> cutoff == chunks[n].start)
      invariant forall k | 0 <= k <= n :: Freed(chunks, k, avg) < need
    {
      var sz := chunks[i].size;
      if sz <= 0 {
        sz := avg;
      }
      freed := freed + sz;
      n := n + 1;
      cutoff := chunks[i + 1].start;
      if freed >= need {
        return n, cutoff, freed, true;
      }
    }
    ok := n > 0;
  }

  lemma {:induction false} NoneKnown(chunks: seq<Chunk>)
    requires KnownCount(chunks) == 0
    ensures KnownTotal(chunks) == 0
  {
    if chunks != [] {
      NoneKnown(chunks[..|chunks| - 1]);
    }
  }

  // ---- what the estimate is ------------------------------------------------------------------

  /** The chunks whose size is known. */
  function Known(chunks: seq<Chunk>): seq<Chunk> {
    if chunks == [] then []
    else
      var n := |chunks| - 1;
      Known(chunks[..n]) + if chunks[n].size > 0 then [chunks[n]] else []
  }

  lemma {:induction false} TotalSnoc(chunks: seq<Chunk>, c: Chunk)
    ensures Total(chunks + [c]) == Total(chunks) + c.size
  {
    if chunks == [] {
      assert chunks + [c] == [c];
    } else {
      TotalSnoc(chunks[1..], c);
      assert (chunks + [c])[1..] == chunks[1..] + [c];
    }
  }

  lemma {:induction false} KnownAre(chunks: seq<Chunk>)
    ensures KnownCount(chunks) == |Known(chunks)| && KnownTotal(chunks) == Total(Known(chunks))
    ensures |Known(chunks)| <= Total(Known(chunks))
  {
    if chunks != [] {
      var n := |chunks| - 1;
      KnownAre(chunks[..n]);
      if chunks[n].size > 0 {
        TotalSnoc(Known(chunks[..n]), chunks[n]);
      } else {
        assert Known(chunks) == Known(chunks[..n]);
      }
    }
  }

  lemma {:induction false} KnownHaveSizes(chunks: seq<Chunk>, c: Chunk)
    ensures c in Known(chunks) <==> c in chunks && c.size > 0
  {
    if chunks != [] {
      var n := |chunks| - 1;
      KnownHaveSizes(chunks[..n], c);
      assert chunks == chunks[..n] + [chunks[n]];
    }
  }

  lemma Quotient(a: int, b: int)
    requires b > 0
    ensures b * (a / b) <= a < b * (a / b) + b
  {
  }

  /** An unknown chunk is taken for the mean known size, or an even share of the database, or one byte, rounded down. */
  lemma GuessIsMean(chunks: seq<Chunk>, dbUsed: int)
    ensures var (g, known) := (Guess(chunks, dbUsed), Known(chunks));
            if known != [] then |known| * g <= Total(known) < |known| * g + |known|
            else if chunks != [] && dbUsed >= |chunks| then |chunks| * g <= dbUsed < |chunks| * g + |chunks|
            else g == 1
  {
    KnownAre(chunks);
    var known := Known(chunks);
    if known != [] {
      Quotient(Total(known), |known|);
      AtLeastOne(Total(known), |known|);
    } else if chunks != [] && dbUsed >= |chunks| {
      Quotient(dbUsed, |chunks|);
      AtLeastOne(dbUsed, |chunks|);
    } else if chunks != [] && dbUsed > 0 {
      Below(dbUsed, |chunks|);
    }
  }

  lemma AtLeastOne(a: int, b: int)
    requires a >= b > 0
    ensures a / b >= 1
  {
    Quotient(a, b);
  }

  lemma Below(a: int, b: int)
    requires 0 < a < b
    ensures a / b == 0
  {
    Quotient(a, b);
  }

  /** Freed counts known chunks with their size and the others with the guess. */
  lemma {:induction false} FreedCounts(chunks: seq<Chunk>, n: nat, guess: int)
    requires n <= |chunks|
    ensures Freed(chunks, n, guess) == Total(Known(chunks[..n])) + (n - |Known(chunks[..n])|) * guess
  {
    if n > 0 {
      FreedCounts(chunks, n - 1, guess);
      assert chunks[..n][..n - 1] == chunks[..n - 1] && chunks[..n][n - 1] == chunks[n - 1];
      if chunks[n - 1].size > 0 {
        TotalSnoc(Known(chunks[..n - 1]), chunks[n - 1]);
      } else {
        Times(n - 1 - |Known(chunks[..n - 1])|, guess);
        assert Known(chunks[..n]) == Known(chunks[..n - 1]);
      }
    }
  }

  lemma Times(k: int, g: int)
    ensures (k + 1) * g == k * g + g
  {
  }

  // ---- what the cutoff drops ------------------------------------------------------------

  ghost predicate NonEmpty(chunks: seq<Chunk>) {
    forall i | 0 <= i < |chunks| :: chunks[i].start < chunks[i].end
  }

  ghost predicate OldestFirst(chunks: seq<Chunk>) {
    forall i, j | 0 <= i < j < |chunks| :: chunks[i].start < chunks[j].start
  }

  /** Oldest first, not overlapping. */
  ghost predicate Chronological(chunks: seq<Chunk>) {
    && NonEmpty(chunks)
    && (forall i, j | 0 <= i < j < |chunks| :: chunks[i].end <= chunks[j].start)
  }

  /** drop_chunks: every chunk that lies entirely before the cutoff goes. */
  function DropOlder(chunks: seq<Chunk>, cutoff: int): seq<Chunk> {
    if chunks == [] then []
    else if chunks[0].end <= cutoff then DropOlder(chunks[1..], cutoff)
    else [chunks[0]] + DropOlder(chunks[1..], cutoff)
  }

  lemma {:induction false} KeptAre(chunks: seq<Chunk>, cutoff: int, c: Chunk)
    ensures c in DropOlder(chunks, cutoff) <==> c in chunks && c.end > cutoff
  {
    if chunks != [] {
      KeptAre(chunks[1..], cutoff, c);
    }
  }

  lemma {:induction false} DropPrefix(chunks: seq<Chunk>, n: nat, cutoff: int)
    requires n <= |chunks| && forall i | 0 <= i < |chunks| :: chunks[i].end <= cutoff <==> i < n
    ensures DropOlder(chunks, cutoff) == chunks[n..]
  {
    if n > 0 {
      DropPrefix(chunks[1..], n - 1, cutoff);
      assert chunks[1..][n - 1..] == chunks[n..];
    } else {
      NothingOlder(chunks, cutoff);
    }
  }

  /**
   The planned prefix is exactly what starts before the plan's cutoff, and the cutoff drops exactly
   that prefix if and only if its ranges have ended by then.
   */
  lemma CutoffDropsPrefix(chunks: seq<Chunk>, n: nat)
    requires NonEmpty(chunks) && OldestFirst(chunks) && n < |chunks|
    ensures var cutoff := chunks[n].start;
            && (forall i | 0 <= i < |chunks| :: chunks[i].start < cutoff <==> i < n)
            && (DropOlder(chunks, cutoff) == chunks[n..] <==> forall i | 0 <= i < n :: chunks[i].end <= cutoff)
  {
    var cutoff := chunks[n].start;
    if forall i | 0 <= i < n :: chunks[i].end <= cutoff {
      DropPrefix(chunks, n, cutoff);
    } else {
      var i :| 0 <= i < n && chunks[i].end > cutoff;
      KeptAre(chunks, cutoff, chunks[i]);
      assert forall c | c in chunks[n..] :: c.start >= cutoff > chunks[i].start;
    }
  }

  /** So chunks that do not overlap lose exactly the planned prefix. */
  lemma ChronologicalDropsPrefix(chunks: seq<Chunk>, n: nat)
    requires Chronological(chunks) && n < |chunks|
    ensures DropOlder(chunks, chunks[n].start) == chunks[n..]
  {
    CutoffDropsPrefix(chunks, n);
  }

  lemma {:induction false} NothingOlder(chunks: seq<Chunk>, cutoff: int)
    requires forall i | 0 <= i < |chunks| :: chunks[i].end > cutoff
    ensures DropOlder(chunks, cutoff) == chunks
  {
    if chunks != [] {
      NothingOlder(chunks[1..], cutoff);
    }
  }

  function Total(chunks: seq<Chunk>): int {
    if chunks == [] then 0 else chunks[0].size + Total(chunks[1..])
  }

  ghost predicate Sized(chunks: seq<Chunk>) {
    forall i | 0 <= i < |chunks| :: chunks[i].size > 0
  }

  /** Dropping never adds bytes. */
  lemma {:induction false} DropShrinks(chunks: seq<Chunk>, cutoff: int)
    requires Sized(chunks)
    ensures Sized(DropOlder(chunks, cutoff)) && Total(DropOlder(chunks, cutoff)) <= Total(chunks)
  {
    if chunks != [] {
      DropShrinks(chunks[1..], cutoff);
    }
  }

  lemma {:induction false} TotalOfSuffix(chunks: seq<Chunk>, k: nat, n: nat)
    requires Sized(chunks) && k <= n <= |chunks|
    ensures Total(chunks[n..]) <= Total(chunks[k..])
    decreases n
  {
    if k < n {
      TotalOfSuffix(chunks, k, n - 1);
      assert chunks[n - 1..][1..] == chunks[n..];
    }
  }

  /** With exact sizes the estimate is what dropping really frees. */
  lemma {:induction false} FreedIsExact(chunks: seq<Chunk>, n: nat, guess: int)
    requires n <= |chunks| && Sized(chunks)
    ensures Freed(chunks, n, guess) == Total(chunks) - Total(chunks[n..])
  {
    if n == 0 {
      assert chunks[0..] == chunks;
    } else {
      FreedIsExact(chunks, n - 1, guess);
      assert chunks[n - 1..][1..] == chunks[n..];
    }
  }

  // ---- the time slice of the fallback -----------------------------------------------------

  const SECOND := 1_000_000_000
  const MINUTE := 60 * SECOND
  const HOUR := 60 * MINUTE

  /** Where the fallback cuts between the oldest and the newest sample, in nanoseconds. */
  function SliceCut(oldest: int, newest: int): int
    requires oldest < newest
  {
    var span := newest - oldest;
    var cut := if span < 10 * HOUR then oldest + HOUR else oldest + span / 10;
    var cut' := if cut <= oldest then oldest + MINUTE else cut;
    if cut' >= newest then newest - SECOND else cut'
  }

  /** It cuts an hour, or a tenth of the span if that is longer, past the oldest, but a second short of the newest. */
  lemma SliceCutIs(oldest: int, newest: int)
    requires oldest < newest
    ensures var step := Longest(3_600_000_000_000, (newest - oldest) / 10);
            SliceCut(oldest, newest) == if oldest + step < newest then oldest + step else newest - 1_000_000_000
  {
  }

  function Longest(a: int, b: int): int {
    if a < b then b else a
  }

  /** The newest sample always survives the cut; the oldest goes exactly when they are over a second apart. */
  lemma SliceCutMakesProgress(oldest: int, newest: int)
    requires oldest < newest
    ensures SliceCut(oldest, newest) < newest
    ensures oldest < SliceCut(oldest, newest) <==> newest - oldest > SECOND
  {
  }
}
