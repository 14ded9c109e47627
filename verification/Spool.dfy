/** The on-disk spool of batches the historian refused: named files behind one mutex. */
module Spool {
  import opened Samples
  import opened Text
  import opened Wrappers

  type Batch = seq<Sample>

  /** A file being written, one that does not decode, or a complete batch. */
  datatype Content = Partial | Corrupt | Stored(batch: Batch)

  datatype File = File(name: string, content: Content)

  /** How the write of a new file ends; a failed one may leave a file that does not decode. */
  datatype WriteOutcome = Complete | FailsClean | FailsDirty

  /** The name a clock reading in nanoseconds gives. */
  function Name(stamp: nat): string {
    Decimal(stamp) + ".json"
  }

  /** Clock readings with equally many digits are ordered by their names. */
  lemma NamesFollowTheClock(m: nat, n: nat)
    requires |Decimal(m)| == |Decimal(n)|
    ensures Less(Name(m), Name(n)) <==> m < n
  {
    LessOfConcat(Decimal(m), Decimal(n), ".json", ".json");
    LessIsNumeric(Decimal(m), Decimal(n));
    LessTotal(".json", ".json");
    ValueOfDecimal(m);
    ValueOfDecimal(n);
  }

  lemma NameInjective(m: nat, n: nat)
    requires Name(m) == Name(n)
    ensures m == n
  {
    assert |Decimal(m)| == |Decimal(n)|;
    assert Decimal(m) == Name(m)[..|Decimal(m)|] && Decimal(n) == Name(n)[..|Decimal(n)|];
    ValueOfDecimal(m);
    ValueOfDecimal(n);
  }

  function Names(files: seq<File>): (r: seq<string>)
    ensures |r| == |files| && forall i | 0 <= i < |r| :: r[i] == files[i].name
  {
    seq(|files|, i requires 0 <= i < |files| => files[i].name)
  }

  predicate DistinctNames(files: seq<File>) {
    forall i, j | 0 <= i < j < |files| :: files[i].name != files[j].name
  }

  /** Where the file of that name is, or the length when there is none. */
  function Position(files: seq<File>, name: string, from: nat := 0): (i: nat)
    requires from <= |files|
    ensures from <= i <= |files|
    ensures i < |files| ==> files[i].name == name
    ensures forall j | from <= j < i :: files[j].name != name
    decreases |files| - from
  {
    if from == |files| || files[from].name == name then from else Position(files, name, from + 1)
  }

  predicate HasName(files: seq<File>, name: string) {
    Position(files, name) < |files|
  }

  function Find(files: seq<File>, name: string): Option<Content> {
    if HasName(files, name) then Some(files[Position(files, name)].content) else None
  }

  /** The directory without the file of that name. */
  function Without(files: seq<File>, name: string): seq<File> {
    var i := Position(files, name);
    if i == |files| then files else files[..i] + files[i + 1..]
  }

  /** The directory after a file was written; a name in use is overwritten. */
  function Put(files: seq<File>, name: string, content: Content): seq<File> {
    var i := Position(files, name);
    if i == |files| then files + [File(name, content)] else files[i := File(name, content)]
  }

  lemma FindAt(files: seq<File>, i: nat)
    requires DistinctNames(files) && i < |files|
    ensures Position(files, files[i].name) == i && Find(files, files[i].name) == Some(files[i].content)
  {
  }

  lemma WithoutShifts(files: seq<File>, name: string)
    requires DistinctNames(files) && HasName(files, name)
    ensures var i, after := Position(files, name), Without(files, name);
            && DistinctNames(after) && |after| == |files| - 1
            && (forall k | 0 <= k < i :: after[k] == files[k])
            && (forall k | i <= k < |after| :: after[k] == files[k + 1])
  {
  }

  /** Removing forgets one name and nothing else. */
  lemma WithoutLaws(files: seq<File>, name: string, other: string)
    requires DistinctNames(files)
    ensures DistinctNames(Without(files, name))
    ensures Find(Without(files, name), other) == if other == name then None else Find(files, other)
  {
    if HasName(files, name) {
      var i, j, after := Position(files, name), Position(files, other), Without(files, name);
      WithoutShifts(files, name);
      if j < i {
        FindAt(after, j);
      } else if i < j < |files| {
        FindAt(after, j - 1);
      } else {
        assert forall k | 0 <= k < |after| :: after[k].name != other;
      }
    }
  }

  /** Writing sets one name and nothing else. */
  lemma PutLaws(files: seq<File>, name: string, content: Content, other: string)
    requires DistinctNames(files)
    ensures DistinctNames(Put(files, name, content))
    ensures Find(Put(files, name, content), other) == if other == name then Some(content) else Find(files, other)
  {
    var i, j, after := Position(files, name), Position(files, other), Put(files, name, content);
    FindAt(after, i);
    if j < |files| && i != j {
      FindAt(after, j);
    }
  }

  /** A listing order: every position once. */
  ghost predicate IsOrder(order: seq<nat>, n: nat) {
    && |order| == n && (forall i | 0 <= i < n :: order[i] < n)
    && (forall i, j | 0 <= i < j < n :: order[i] != order[j])
    && (forall k | 0 <= k < n :: k in order)
  }

  class FileSpool {
    const maxFiles: nat
    var files: seq<File>

    ghost predicate Valid()
      reads this
    {
      DistinctNames(files)
    }

    /** Opens a directory as it is: what an earlier process left there is still queued. */
    constructor (maxFiles: int, existing: seq<File>)
      requires DistinctNames(existing)
      ensures Valid() && files == existing && this.maxFiles == if maxFiles <= 0 then 1000 else maxFiles
    {
      this.maxFiles := if maxFiles <= 0 then 1000 else maxFiles;
      files := existing;
    }

    /** ok is a nil error. The batch is stored under the clock's name only when ok. */
    method Enqueue(samples: Batch, stamp: nat, outcome: WriteOutcome) returns (ok: bool)
      requires Valid()
      modifies this
      ensures Valid()
      ensures ok <==> samples == [] || (|old(files)| < maxFiles && outcome == Complete)
      ensures samples == [] || |old(files)| >= maxFiles || outcome == FailsClean ==> files == old(files)
      ensures samples != [] && |old(files)| < maxFiles && outcome != FailsClean ==>
        files == Put(old(files), Name(stamp), if ok then Stored(samples) else Corrupt)
    {
      if |samples| == 0 {
        return true;
      }
      if |files| >= maxFiles {
        return false;
      }
      if outcome == FailsClean {
        return false;
      }
      files := Put(files, Name(stamp), if outcome == Complete then Stored(samples) else Corrupt);
      ok := outcome == Complete;
    }

    /** All names, in the directory's arbitrary order. */
    method List(order: seq<nat>) returns (names: seq<string>)
      requires IsOrder(order, |files|)
      ensures |names| == |files| && forall i | 0 <= i < |names| :: names[i] == files[order[i]].name
    {
      names := seq(|order|, i requires 0 <= i < |order| reads this requires IsOrder(order, |files|) => files[order[i]].name);
    }

    method Load(name: string) returns (r: Result<Batch>)
      ensures r.Ok? <==> Find(files, name).Some? && Find(files, name).value.Stored?
      ensures r.Ok? ==> Find(files, name).value == Stored(r.value)
    {
      var f := Find(files, name);
      match f {
        case Some(Stored(batch)) => r := Ok(batch);
        case _ => r := Err;
      }
    }

    method Remove(name: string) returns (ok: bool)
      requires Valid()
      modifies this
      ensures Valid() && files == Without(old(files), name) && (ok <==> HasName(old(files), name))
      ensures |files| == |old(files)| - (if ok then 1 else 0)
    {
      ok := Find(files, name).Some?;
      files := Without(files, name);
    }
  }

  /** The name replay takes first: no listed name sorts before it, and it is the first such. */
  ghost predicate IsOldest(names: seq<string>, i: nat) {
    i < |names| && forall j | 0 <= j < |names| :: !Less(names[j], names[i]) && (j < i ==> names[j] != names[i])
  }

  method PickOldest(names: seq<string>) returns (path: string, ghost at: nat)
    requires names != []
    ensures IsOldest(names, at) && path == names[at]
    ensures path in names && forall n | n in names :: !Less(n, path)
  {
    path, at := names[0], 0;
    LessTotal(path, path);
    for i := 1 to |names|
      invariant at < i && path == names[at]
      invariant forall j | 0 <= j < i :: !Less(names[j], path) && (j < at ==> names[j] != path)
    {
      LessTotal(names[i], path);
      if Less(names[i], path) {
        forall j | 0 <= j < i
          ensures !Less(names[j], names[i]) && names[j] != names[i]
        {
          LessTotal(names[j], names[i]);
          LessTotal(names[i], names[i]);
          if Less(names[j], names[i]) {
            LessTransitive(names[j], names[i], path);
          }
        }
        LessTotal(names[i], names[i]);
        path, at := names[i], i;
      }
    }
  }
}
