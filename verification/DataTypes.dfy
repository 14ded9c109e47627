/** Reading the data types of many nodes: chunked requests, unparsable ids squeezed out, results scattered back. */
module DataTypes {
  import opened Wrappers

  const MAX_NODES_PER_READ := 100

  /** [start, end) of one request. */
  type Range = (nat, nat)

  /** The ranges tile [0, n) in order, all but the last of full size. */
  ghost predicate Tiles(ranges: seq<Range>, n: nat, size: nat) {
    && (ranges == [] <==> n == 0)
    && (ranges != [] ==> ranges[0].0 == 0 && ranges[|ranges| - 1].1 == n)
    && Chained(ranges, size)
  }

  ghost predicate Chained(ranges: seq<Range>, size: nat) {
    forall k | 0 <= k < |ranges| ::
      && ranges[k].0 < ranges[k].1 <= ranges[k].0 + size
      && (k + 1 < |ranges| ==> ranges[k].1 == ranges[k + 1].0 == ranges[k].0 + size)
  }

  lemma ChainSnoc(ranges: seq<Range>, size: nat, r: Range)
    requires Chained(ranges, size) && r.0 < r.1 <= r.0 + size
    requires ranges != [] ==> ranges[|ranges| - 1].1 == r.0 == ranges[|ranges| - 1].0 + size
    ensures Chained(ranges + [r], size)
  {
  }

  /** chunkRanges, for any arguments. */
  method ChunkRanges(n: int, size: int) returns (out: seq<Range>)
    ensures n <= 0 || size <= 0 ==> out == []
    ensures n > 0 && size > 0 ==> Tiles(out, n, size)
  {
    out := [];
    if n <= 0 || size <= 0 {
      return;
    }
    var start := 0;
    while start < n
      invariant 0 <= start && Chained(out, size)
      invariant out == [] <==> start == 0
      invariant out != [] ==> out[0].0 == 0 && out[|out| - 1].1 == (if start < n then start else n)
      invariant out != [] ==> out[|out| - 1].0 + size == start
      decreases n - start
    {
      var end := start + size;
      if end > n {
        end := n;
      }
      ChainSnoc(out, size, (start, end));
      out := out + [(start, end)];
      start := start + size;
    }
  }

  lemma {:induction false} RangeOf(ranges: seq<Range>, n: nat, size: nat, i: nat, from: nat) returns (k: nat)
    requires Tiles(ranges, n, size) && i < n && from < |ranges| && ranges[from].0 <= i
    ensures from <= k < |ranges| && ranges[k].0 <= i < ranges[k].1
    decreases |ranges| - from
  {
    k := from;
    if i >= ranges[from].1 {
      k := RangeOf(ranges, n, size, i, from + 1);
    }
  }

  lemma {:induction false} RangesDisjoint(ranges: seq<Range>, size: nat, j: nat, k: nat)
    requires Chained(ranges, size) && j < k < |ranges|
    ensures ranges[j].1 <= ranges[k].0
    decreases k - j
  {
    if j + 1 < k {
      RangesDisjoint(ranges, size, j + 1, k);
    }
  }

  /** Every index falls in exactly one range. */
  lemma TilesCoverOnce(ranges: seq<Range>, n: nat, size: nat, i: nat) returns (k: nat)
    requires Tiles(ranges, n, size) && i < n
    ensures k < |ranges| && ranges[k].0 <= i < ranges[k].1
    ensures forall j | 0 <= j < |ranges| && j != k :: !(ranges[j].0 <= i < ranges[j].1)
  {
    k := RangeOf(ranges, n, size, i, 0);
    forall j | 0 <= j < |ranges| && j != k
      ensures !(ranges[j].0 <= i < ranges[j].1)
    {
      if j < k { RangesDisjoint(ranges, size, j, k); } else { RangesDisjoint(ranges, size, k, j); }
    }
  }

  /**
   What is outside: which ids parse and resolve (to a node handle), and for each node the server's
   mapped type, empty when the read failed or the type is unmapped. A whole request may fail, and
   a response may be cut short.
   */
  datatype Env = Env(parse: string -> Option<int>, typeOf: int -> string, fails: nat -> bool, answered: nat -> nat)

  /** The type slot i must get: nothing unless its id parses and its request was answered for it. */
  ghost function Slot(env: Env, ids: seq<string>, i: nat): string
    requires i < |ids|
  {
    SlotIn(env, ids, i / MAX_NODES_PER_READ, i / MAX_NODES_PER_READ * MAX_NODES_PER_READ, i)
  }

  /** The same, for slot i of a request that starts at start; Parsed is i's place in the squeezed request. */
  ghost function SlotIn(env: Env, ids: seq<string>, request: nat, start: nat, i: nat): string
    requires start <= i < |ids|
  {
    if env.parse(ids[i]).None? || env.fails(request) || Parsed(env, ids, start, i) >= env.answered(request) then ""
    else env.typeOf(env.parse(ids[i]).value)
  }

  ghost function Parsed(env: Env, ids: seq<string>, lo: nat, hi: nat): nat
    requires lo <= hi <= |ids|
  {
    if lo == hi then 0 else Parsed(env, ids, lo, hi - 1) + (if env.parse(ids[hi - 1]).Some? then 1 else 0)
  }

  /** The ids of one request that parse, and where they came from. */
  method Squeeze(env: Env, ids: seq<string>, start: nat, end: nat) returns (idxs: seq<nat>, nodes: seq<int>)
    requires start <= end <= |ids|
    ensures |idxs| == |nodes| == Parsed(env, ids, start, end)
    ensures forall j | 0 <= j < |idxs| ::
      start <= idxs[j] < end && env.parse(ids[idxs[j]]) == Some(nodes[j]) && Parsed(env, ids, start, idxs[j]) == j
    ensures forall i | start <= i < end && env.parse(ids[i]).Some? ::
      Parsed(env, ids, start, i) < |idxs| && idxs[Parsed(env, ids, start, i)] == i
  {
    idxs, nodes := [], [];
    for i := start to end
      invariant |idxs| == |nodes| == Parsed(env, ids, start, i)
      invariant forall j | 0 <= j < |idxs| ::
        start <= idxs[j] < i && env.parse(ids[idxs[j]]) == Some(nodes[j]) && Parsed(env, ids, start, idxs[j]) == j
      invariant forall k | start <= k < i && env.parse(ids[k]).Some? ::
        Parsed(env, ids, start, k) < |idxs| && idxs[Parsed(env, ids, start, k)] == k
    {
      var nid := env.parse(ids[i]);
      if nid.Some? {
        idxs, nodes := idxs + [i], nodes + [nid.value];
      }
    }
  }

  /** A read request: nothing if it fails, else the types of the nodes asked for, perhaps not all of them. */
  function Read(env: Env, request: nat, nodes: seq<int>): seq<string> {
    var n := if env.fails(request) then 0 else if env.answered(request) < |nodes| then env.answered(request) else |nodes|;
    seq(n, j requires 0 <= j < n <= |nodes| => env.typeOf(nodes[j]))
  }

  /** Results go back to where their nodes came from; an empty one changes nothing. */
  method Scatter(results: seq<string>, idxs: seq<nat>, slots: array<string>)
    requires |results| <= |idxs| && forall j | 0 <= j < |idxs| :: idxs[j] < slots.Length && slots[idxs[j]] == ""
    requires forall j, k | 0 <= j < k < |idxs| :: idxs[j] != idxs[k]
    modifies slots
    ensures forall j | 0 <= j < |idxs| :: slots[idxs[j]] == if j < |results| then results[j] else ""
    ensures forall i | 0 <= i < slots.Length && i !in idxs :: slots[i] == old(slots[i])
  {
    for j := 0 to |results|
      invariant forall k | 0 <= k < |idxs| :: slots[idxs[k]] == if k < j then results[k] else ""
      invariant forall i | 0 <= i < slots.Length && i !in idxs :: slots[i] == old(slots[i])
    {
      var dt := results[j];
      if dt != "" {
        slots[idxs[j]] := dt;
      }
    }
  }

  /** One request: its slots are filled, the others are left alone. */
  method ReadChunk(env: Env, ids: seq<string>, request: nat, start: nat, end: nat, slots: array<string>)
    requires start <= end <= |ids| == slots.Length && forall i | start <= i < end :: slots[i] == ""
    modifies slots
    ensures forall i | 0 <= i < |ids| ::
      slots[i] == if start <= i < end then SlotIn(env, ids, request, start, i) else old(slots[i])
  {
    var idxs, nodes := Squeeze(env, ids, start, end);
    var results := Read(env, request, nodes);
    Scatter(results, idxs, slots);
    forall i | start <= i < end
      ensures slots[i] == SlotIn(env, ids, request, start, i)
    {
      ghost var j := Parsed(env, ids, start, i);
      if env.parse(ids[i]).Some? {
        assert idxs[j] == i && slots[idxs[j]] == if j < |results| then results[j] else "";
      }
    }
  }

  method ReadDataTypesBatch(env: Env, ids: seq<string>) returns (out: seq<string>, progress: seq<(nat, nat)>)
    ensures |out| == |ids| && forall i | 0 <= i < |ids| :: out[i] == Slot(env, ids, i)
    ensures forall k | 0 <= k < |progress| :: progress[k] == (Min((k + 1) * 100, |ids|), |ids|)
    ensures |progress| == (|ids| + 99) / 100
  {
    progress := [];
    var slots := new string[|ids|](_ => "");
    var request := 0;
    while request * MAX_NODES_PER_READ < |ids|
      invariant |progress| == request && (request == 0 || (request - 1) * MAX_NODES_PER_READ < |ids|)
      invariant forall k | 0 <= k < request :: progress[k] == (Min((k + 1) * MAX_NODES_PER_READ, |ids|), |ids|)
      invariant forall i | 0 <= i < |ids| ::
        slots[i] == if i < request * MAX_NODES_PER_READ then Slot(env, ids, i) else ""
      decreases |ids| - request * MAX_NODES_PER_READ
    {
      var start := request * MAX_NODES_PER_READ;
      var end := start + MAX_NODES_PER_READ;
      if end > |ids| {
        end := |ids|;
      }
      ReadChunk(env, ids, request, start, end, slots);
      assert forall i | start <= i < end :: i / MAX_NODES_PER_READ == request;
      progress := progress + [(end, |ids|)];
      request := request + 1;
    }
    out := slots[..];
  }

  function Min(a: nat, b: nat): nat {
    if a < b then a else b
  }

  /** Parsed counts the ids of a range that parse. */
  lemma {:induction false} ParsedCounts(env: Env, ids: seq<string>, lo: nat, hi: nat)
    requires lo <= hi <= |ids|
    ensures Parsed(env, ids, lo, hi) == |Hits(ids[lo..hi], (id: string) => env.parse(id).Some?)|
    decreases hi
  {
    if lo < hi {
      ParsedCounts(env, ids, lo, hi - 1);
      HitsSnoc(ids[lo..hi - 1], ids[hi - 1], (id: string) => env.parse(id).Some?);
      assert ids[lo..hi] == ids[lo..hi - 1] + [ids[hi - 1]];
    }
  }

  /**
   A response cut short still serves the slots it reaches: slot i has its node's type if its id parses,
   its request did not fail, and fewer parsable ids come before it in that request than were answered.
   */
  lemma CutResponsesServeAFewSlots(env: Env, ids: seq<string>, i: nat, request: nat, start: nat)
    requires i < |ids| && request == i / 100 && start == 100 * request
    ensures start <= i && Slot(env, ids, i) ==
            if env.parse(ids[i]).Some? && !env.fails(request)
               && |Hits(ids[start..i], (id: string) => env.parse(id).Some?)| < env.answered(request)
            then env.typeOf(env.parse(ids[i]).value) else ""
  {
    ParsedCounts(env, ids, start, i);
  }

  /** Against a server that answers everything, slot i is the type of node i, whatever was squeezed out. */
  lemma AnsweredBatchIsPointwise(env: Env, ids: seq<string>, i: nat)
    requires i < |ids| && forall k: nat :: !env.fails(k) && env.answered(k) >= MAX_NODES_PER_READ
    ensures Slot(env, ids, i) == if env.parse(ids[i]).Some? then env.typeOf(env.parse(ids[i]).value) else ""
  {
    var start := i / MAX_NODES_PER_READ * MAX_NODES_PER_READ;
    ParsedAtMost(env, ids, start, i);
  }

  lemma {:induction false} ParsedAtMost(env: Env, ids: seq<string>, lo: nat, hi: nat)
    requires lo <= hi <= |ids|
    ensures Parsed(env, ids, lo, hi) <= hi - lo
    decreases hi
  {
    if lo != hi {
      ParsedAtMost(env, ids, lo, hi - 1);
    }
  }
}
