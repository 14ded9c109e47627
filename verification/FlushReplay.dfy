/**
 The batching loop and the spool replay running side by side.

 Each loop is a goroutine; the spool's mutex is held exactly while the batching loop is storing a
 file, so listing and removing wait for it, and loading does not. A run is a list of actions; an
 action that is not enabled does nothing. The received samples, the accepted batches, the
 deliberate drops and the stored, replayed and removed files are kept as history. FlushOrder says in
 what order files are replayed.
 */
module FlushReplay {
  import opened Wrappers
  import opened Text
  import opened Samples
  import opened Spool

  const FLUSH_AT := 200

  datatype Flusher = Ready | Writing(batch: Batch) | Enqueuing(batch: Batch) | Storing(batch: Batch, name: string)

  datatype Replayer = Resting | Picked(name: string) | Loaded(name: string, batch: Batch)
    | Written(name: string, batch: Batch) | Unreadable(name: string)

  /** The historian took the batch, halted by policy, or refused it: busy trimming, or a hard error. */
  datatype Answer = Accepted | Halted | Busy | Failed

  /** History: batches the historian accepted, and deliberate drops. */
  datatype Ledger = Ledger(hist: seq<Batch>, dropped: seq<Batch>) {
    function Accept(b: Batch): Ledger { this.(hist := hist + [b]) }
    function Drop(b: Batch): Ledger { this.(dropped := dropped + [b]) }
  }

  /** A stored file that replay removed, after writing its batch or because it could not be read. */
  datatype Removal = Removal(file: File, written: bool)

  /**
   History: the files found at the start and those Enqueue reported stored, the files replay wrote,
   and the stored files it removed, each in order; the last name given, and whether every new name
   sorted after the one before it; whether a complete file ever failed to be read.
   */
  datatype Order = Order(
    spooled: seq<File>, replayed: seq<File>, removed: seq<Removal>, lastName: string, ascending: bool, faulty: bool)

  datatype Sys = Sys(
    maxFiles: nat, buf: Batch, flusher: Flusher, files: seq<File>, replayer: Replayer,
    received: seq<Sample>, ledger: Ledger, order: Order)

  datatype Action = Arrival(sample: Sample) | Ticker | Answered(answer: Answer)
    | Open(stamp: nat) | Close(outcome: WriteOutcome)
    | ListFiles(at: nat) | Read(readable: bool) | ReplayAnswered(accepted: bool) | Delete

  ghost predicate NamesAscend(files: seq<File>) {
    forall i, j | 0 <= i < j < |files| :: Less(files[i].name, files[j].name)
  }

  /** A directory an earlier process may have left: listed by name, nothing in the middle of a write. */
  ghost predicate Reopenable(files: seq<File>) {
    && NamesAscend(files)
    && (forall i | 0 <= i < |files| :: !files[i].content.Partial?)
  }

  function LastName(files: seq<File>): string {
    if files == [] then "" else files[|files| - 1].name
  }

  function StoredFiles(files: seq<File>): seq<File> {
    if files == [] then []
    else if files[0].content.Stored? then [files[0]] + StoredFiles(files[1..])
    else StoredFiles(files[1..])
  }

  function Init(maxFiles: nat, files: seq<File>): Sys {
    Sys(maxFiles, [], Ready, files, Resting, [], Ledger([], []),
        Order(StoredFiles(files), [], [], LastName(files), true, false))
  }

  // ---- the steps of the batching loop ------------------------------------------------

  function Receive(s: Sys, x: Sample): Sys {
    if !s.flusher.Ready? then s
    else
      var buf, received := s.buf + [x], s.received + [x];
      if |buf| >= FLUSH_AT then s.(received := received, buf := [], flusher := Writing(buf))
      else s.(received := received, buf := buf)
  }

  function Tick(s: Sys): Sys {
    if !s.flusher.Ready? || s.buf == [] then s else s.(buf := [], flusher := Writing(s.buf))
  }

  /** What flush does with its batch: done, discarded on a halt, or off to the spool. */
  function FlushAnswer(s: Sys, answer: Answer): Sys {
    if !s.flusher.Writing? then s
    else
      match answer
      case Accepted => s.(flusher := Ready, ledger := s.ledger.Accept(s.flusher.batch))
      case Halted => s.(flusher := Ready, ledger := s.ledger.Drop(s.flusher.batch))
      case _ => s.(flusher := Enqueuing(s.flusher.batch))
  }

  /** Enqueue takes the mutex, checks the limit and creates the file. Names in use are assumed away. */
  function OpenFile(s: Sys, stamp: nat): Sys {
    var name := Name(stamp);
    if !s.flusher.Enqueuing? || HasName(s.files, name) then s
    else if |s.files| >= s.maxFiles then s.(flusher := Ready, ledger := s.ledger.Drop(s.flusher.batch))
    else s.(flusher := Storing(s.flusher.batch, name), files := Put(s.files, name, Partial),
            order := s.order.(lastName := name, ascending := s.order.ascending && Less(s.order.lastName, name)))
  }

  /** The write ends and the mutex is released. */
  function CloseFile(s: Sys, outcome: WriteOutcome): Sys {
    if !s.flusher.Storing? then s
    else
      var (batch, name) := (s.flusher.batch, s.flusher.name);
      match outcome
      case Complete =>
        s.(flusher := Ready, files := Put(s.files, name, Stored(batch)),
           order := s.order.(spooled := s.order.spooled + [File(name, Stored(batch))]))
      case FailsDirty =>
        s.(flusher := Ready, files := Put(s.files, name, Corrupt), ledger := s.ledger.Drop(batch))
      case FailsClean =>
        s.(flusher := Ready, files := Without(s.files, name), ledger := s.ledger.Drop(batch))
  }

  // ---- the steps of replay ----------------------------------------------------------

  /** List under the mutex, then the search for the oldest name. */
  ghost function ListSpool(s: Sys, at: nat): Sys {
    if !s.replayer.Resting? || s.flusher.Storing? || !IsOldest(Names(s.files), at) then s
    else s.(replayer := Picked(s.files[at].name))
  }

  /** Load takes no mutex. */
  function Load(s: Sys, readable: bool): Sys {
    if !s.replayer.Picked? then s
    else
      match Find(s.files, s.replayer.name)
      case Some(Stored(batch)) =>
        if readable then s.(replayer := Loaded(s.replayer.name, batch))
        else s.(replayer := Unreadable(s.replayer.name), order := s.order.(faulty := true))
      case _ => s.(replayer := Unreadable(s.replayer.name))
  }

  function ReplayAnswer(s: Sys, accepted: bool): Sys {
    if !s.replayer.Loaded? then s
    else if !accepted then s.(replayer := Resting)
    else
      var (name, batch) := (s.replayer.name, s.replayer.batch);
      s.(replayer := Written(name, batch), ledger := s.ledger.Accept(batch),
         order := s.order.(replayed := s.order.replayed + [File(name, Stored(batch))]))
  }

  /** Remove waits for the mutex. */
  function RemoveFile(s: Sys): Sys {
    if !(s.replayer.Written? || s.replayer.Unreadable?) || s.flusher.Storing? then s
    else
      var name := s.replayer.name;
      var removal := match Find(s.files, name)
        case Some(Stored(batch)) => [Removal(File(name, Stored(batch)), s.replayer.Written?)]
        case _ => [];
      s.(replayer := Resting, files := Without(s.files, name),
         order := s.order.(removed := s.order.removed + removal))
  }

  ghost function Apply(s: Sys, a: Action): Sys {
    match a
    case Arrival(x) => Receive(s, x)
    case Ticker => Tick(s)
    case Answered(answer) => FlushAnswer(s, answer)
    case Open(stamp) => OpenFile(s, stamp)
    case Close(outcome) => CloseFile(s, outcome)
    case ListFiles(at) => ListSpool(s, at)
    case Read(readable) => Load(s, readable)
    case ReplayAnswered(accepted) => ReplayAnswer(s, accepted)
    case Delete => RemoveFile(s)
  }

  ghost function Exec(s: Sys, actions: seq<Action>): Sys {
    if actions == [] then s else Apply(Exec(s, actions[..|actions| - 1]), actions[|actions| - 1])
  }

  // ---- where every copy of a sample is ---------------------------------------------

  function Copies(x: Sample, b: Batch): nat {
    if b == [] then 0 else Copies(x, b[..|b| - 1]) + (if b[|b| - 1] == x then 1 else 0)
  }

  function CopiesIn(x: Sample, batches: seq<Batch>): nat {
    if batches == [] then 0 else CopiesIn(x, batches[..|batches| - 1]) + Copies(x, batches[|batches| - 1])
  }

  lemma CopiesSnoc(x: Sample, batches: seq<Batch>, b: Batch)
    ensures CopiesIn(x, batches + [b]) == CopiesIn(x, batches) + Copies(x, b)
  {
    assert (batches + [b])[..|batches|] == batches;
  }

  function CopiesOf(x: Sample, c: Content): nat {
    if c.Stored? then Copies(x, c.batch) else 0
  }

  function InFiles(x: Sample, files: seq<File>): nat {
    if files == [] then 0 else InFiles(x, files[..|files| - 1]) + CopiesOf(x, files[|files| - 1].content)
  }

  lemma InFilesSnoc(x: Sample, files: seq<File>, f: File)
    ensures InFiles(x, files + [f]) == InFiles(x, files) + CopiesOf(x, f.content)
  {
    assert (files + [f])[..|files|] == files;
  }

  lemma {:induction false} InFilesSplit(x: Sample, head: seq<File>, f: File, tail: seq<File>)
    ensures InFiles(x, head + [f] + tail) == InFiles(x, head + tail) + CopiesOf(x, f.content)
  {
    if tail == [] {
      InFilesSnoc(x, head, f);
      assert head + [f] + tail == head + [f] && head + tail == head;
    } else {
      var n := |tail| - 1;
      InFilesSplit(x, head, f, tail[..n]);
      InFilesSnoc(x, head + [f] + tail[..n], tail[n]);
      InFilesSnoc(x, head + tail[..n], tail[n]);
      assert head + [f] + tail == head + [f] + tail[..n] + [tail[n]];
      assert head + tail == head + tail[..n] + [tail[n]];
    }
  }

  lemma InFilesWithout(x: Sample, files: seq<File>, i: nat)
    requires i < |files|
    ensures InFiles(x, files) == InFiles(x, files[..i] + files[i + 1..]) + CopiesOf(x, files[i].content)
  {
    InFilesSplit(x, files[..i], files[i], files[i + 1..]);
    assert files == files[..i] + [files[i]] + files[i + 1..];
  }

  /** Stored files that were removed without having been read. */
  function Unread(removed: seq<Removal>): seq<File> {
    if removed == [] then []
    else
      var n := |removed| - 1;
      Unread(removed[..n]) + (if removed[n].written then [] else [removed[n].file])
  }

  lemma UnreadSnoc(removed: seq<Removal>, r: Removal)
    ensures Unread(removed + [r]) == Unread(removed) + (if r.written then [] else [r.file])
  {
    assert (removed + [r])[..|removed|] == removed;
  }

  function InHand(x: Sample, f: Flusher): nat {
    if f.Ready? then 0 else Copies(x, f.batch)
  }

  /** Between replay's accepted write and its remove, one batch is both on disk and written. */
  function Overlap(x: Sample, r: Replayer): nat {
    if r.Written? then Copies(x, r.batch) else 0
  }

  function Settled(x: Sample, l: Ledger): nat {
    CopiesIn(x, l.hist) + CopiesIn(x, l.dropped)
  }

  lemma AcceptSettles(x: Sample, l: Ledger, b: Batch)
    ensures Settled(x, l.Accept(b)) == Settled(x, l) + Copies(x, b)
  {
    CopiesSnoc(x, l.hist, b);
  }

  lemma DropSettles(x: Sample, l: Ledger, b: Batch)
    ensures Settled(x, l.Drop(b)) == Settled(x, l) + Copies(x, b)
  {
    CopiesSnoc(x, l.dropped, b);
  }

  /** Every copy of x that was found on disk or received is in exactly one place, but for the overlap. */
  ghost predicate Conserved(s: Sys, x: Sample, found: nat) {
    Copies(x, s.received) + found + Overlap(x, s.replayer) ==
      Copies(x, s.buf) + InHand(x, s.flusher) + InFiles(x, s.files) + Settled(x, s.ledger)
      + InFiles(x, Unread(s.order.removed))
  }

  /** The mutex at work: a file is partial only while it is being stored, and replay never holds such a file. */
  ghost predicate Disciplined(s: Sys) {
    && DistinctNames(s.files)
    && (forall i | 0 <= i < |s.files| :: s.files[i].content.Partial? ==>
          s.flusher.Storing? && s.flusher.name == s.files[i].name)
    && (s.flusher.Storing? ==> s.files != [] && s.files[|s.files| - 1] == File(s.flusher.name, Partial))
    && (s.replayer.Picked? || s.replayer.Unreadable? ==>
          Find(s.files, s.replayer.name).Some? && !Find(s.files, s.replayer.name).value.Partial?)
    && (s.replayer.Loaded? || s.replayer.Written? ==> Find(s.files, s.replayer.name) == Some(Stored(s.replayer.batch)))
  }

  lemma PutFresh(s: Sys, name: string, content: Content)
    requires DistinctNames(s.files) && !HasName(s.files, name)
    ensures Put(s.files, name, content) == s.files + [File(name, content)]
  {
  }

  /** The file being stored is the last one, so finishing it rewrites or removes the end of the list. */
  lemma CloseActsOnLast(s: Sys, c: Content) returns (head: seq<File>)
    requires Disciplined(s) && s.flusher.Storing?
    ensures s.files == head + [File(s.flusher.name, Partial)]
    ensures Put(s.files, s.flusher.name, c) == head + [File(s.flusher.name, c)]
    ensures Without(s.files, s.flusher.name) == head
  {
    head := s.files[..|s.files| - 1];
    FindAt(s.files, |s.files| - 1);
  }

  lemma CopiesOneMore(x: Sample, b: Batch, y: Sample)
    ensures Copies(x, b + [y]) == Copies(x, b) + (if x == y then 1 else 0)
  {
    assert (b + [y])[..|b|] == b;
  }

  lemma ReceiveConserves(s: Sys, y: Sample, x: Sample, found: nat)
    requires Conserved(s, x, found)
    ensures Conserved(Receive(s, y), x, found)
  {
    var t := Receive(s, y);
    if s.flusher.Ready? {
      CopiesOneMore(x, s.buf, y);
      CopiesOneMore(x, s.received, y);
      assert Copies(x, t.buf) + InHand(x, t.flusher) == Copies(x, s.buf + [y]);
    }
  }

  lemma TickConserves(s: Sys, x: Sample, found: nat)
    requires Conserved(s, x, found)
    ensures Conserved(Tick(s), x, found)
  {
  }

  lemma FlushAnswerConserves(s: Sys, answer: Answer, x: Sample, found: nat)
    requires Conserved(s, x, found)
    ensures Conserved(FlushAnswer(s, answer), x, found)
  {
    if s.flusher.Writing? {
      match answer {
        case Accepted => AcceptSettles(x, s.ledger, s.flusher.batch);
        case Halted => DropSettles(x, s.ledger, s.flusher.batch);
        case _ =>
      }
    }
  }

  lemma OpenFileConserves(s: Sys, stamp: nat, x: Sample, found: nat)
    requires DistinctNames(s.files) && Conserved(s, x, found)
    ensures Conserved(OpenFile(s, stamp), x, found)
  {
    var t := OpenFile(s, stamp);
    if s.flusher.Enqueuing? && !HasName(s.files, Name(stamp)) {
      if |s.files| >= s.maxFiles {
        DropSettles(x, s.ledger, s.flusher.batch);
      } else {
        PutFresh(s, Name(stamp), Partial);
        InFilesSnoc(x, s.files, File(Name(stamp), Partial));
        assert InFiles(x, t.files) == InFiles(x, s.files) && t.ledger == s.ledger;
      }
    }
  }

  /** The batch in hand goes to the last file, or is dropped. */
  lemma CloseMovesCopies(s: Sys, outcome: WriteOutcome, x: Sample)
    requires Disciplined(s) && s.flusher.Storing?
    ensures var t := CloseFile(s, outcome);
            InFiles(x, t.files) + Settled(x, t.ledger)
              == InFiles(x, s.files) + Settled(x, s.ledger) + Copies(x, s.flusher.batch)
  {
    var name, batch := s.flusher.name, s.flusher.batch;
    var c := if outcome.Complete? then Stored(batch) else Corrupt;
    var head := CloseActsOnLast(s, c);
    InFilesSnoc(x, head, File(name, Partial));
    InFilesSnoc(x, head, File(name, c));
    DropSettles(x, s.ledger, batch);
  }

  lemma CloseFileConserves(s: Sys, outcome: WriteOutcome, x: Sample, found: nat)
    requires Disciplined(s) && Conserved(s, x, found)
    ensures Conserved(CloseFile(s, outcome), x, found)
  {
    if s.flusher.Storing? {
      var t := CloseFile(s, outcome);
      CloseMovesCopies(s, outcome, x);
      assert t.received == s.received && t.buf == s.buf && t.flusher.Ready?;
      assert t.replayer == s.replayer && t.order.removed == s.order.removed;
    }
  }

  lemma LoadConserves(s: Sys, readable: bool, x: Sample, found: nat)
    requires Conserved(s, x, found)
    ensures Conserved(Load(s, readable), x, found)
  {
    var t := Load(s, readable);
    assert t.files == s.files && t.ledger == s.ledger && t.buf == s.buf && t.order.removed == s.order.removed;
    assert t.flusher == s.flusher && t.received == s.received;
    assert Overlap(x, t.replayer) == Overlap(x, s.replayer);
  }

  lemma ReplayAnswerConserves(s: Sys, accepted: bool, x: Sample, found: nat)
    requires Conserved(s, x, found)
    ensures Conserved(ReplayAnswer(s, accepted), x, found)
  {
    if s.replayer.Loaded? {
      AcceptSettles(x, s.ledger, s.replayer.batch);
    }
  }

  lemma UnreadCopies(x: Sample, removed: seq<Removal>, f: File, written: bool)
    ensures InFiles(x, Unread(removed + [Removal(f, written)]))
      == InFiles(x, Unread(removed)) + if written then 0 else CopiesOf(x, f.content)
  {
    UnreadSnoc(removed, Removal(f, written));
    if written {
      assert Unread(removed) + [] == Unread(removed);
    } else {
      InFilesSnoc(x, Unread(removed), f);
    }
  }

  /** What RemoveFile does to the files and the removals, for the file at hand. */
  lemma RemovesOne(s: Sys) returns (i: nat, f: File)
    requires Disciplined(s) && (s.replayer.Written? || s.replayer.Unreadable?) && !s.flusher.Storing?
    ensures i < |s.files| && f == s.files[i]
    ensures RemoveFile(s).files == s.files[..i] + s.files[i + 1..]
    ensures RemoveFile(s).order.removed
      == s.order.removed + if f.content.Stored? then [Removal(f, s.replayer.Written?)] else []
    ensures s.replayer.Written? ==> f.content == Stored(s.replayer.batch)
  {
    i := Position(s.files, s.replayer.name);
    f := s.files[i];
  }

  /** The removed file's copies leave the disk; unless they were written they are now lost. */
  lemma RemoveMovesCopies(s: Sys, x: Sample)
    requires Disciplined(s) && (s.replayer.Written? || s.replayer.Unreadable?) && !s.flusher.Storing?
    ensures var t := RemoveFile(s);
            InFiles(x, t.files) + InFiles(x, Unread(t.order.removed)) + Overlap(x, s.replayer)
              == InFiles(x, s.files) + InFiles(x, Unread(s.order.removed))
  {
    var i, f := RemovesOne(s);
    InFilesWithout(x, s.files, i);
    if f.content.Stored? {
      UnreadCopies(x, s.order.removed, f, s.replayer.Written?);
    } else {
      assert s.order.removed + [] == s.order.removed;
    }
  }

  lemma RemoveFileConserves(s: Sys, x: Sample, found: nat)
    requires Disciplined(s) && Conserved(s, x, found)
    ensures Conserved(RemoveFile(s), x, found)
  {
    var t := RemoveFile(s);
    if (s.replayer.Written? || s.replayer.Unreadable?) && !s.flusher.Storing? {
      RemoveMovesCopies(s, x);
      assert t.received == s.received && t.buf == s.buf && t.flusher == s.flusher && t.ledger == s.ledger;
      assert t.replayer.Resting?;
    }
  }

  lemma OpenFileIsDisciplined(s: Sys, stamp: nat)
    requires Disciplined(s)
    ensures Disciplined(OpenFile(s, stamp))
  {
    if s.flusher.Enqueuing? && !HasName(s.files, Name(stamp)) && |s.files| < s.maxFiles {
      PutFresh(s, Name(stamp), Partial);
      if !s.replayer.Resting? { PutLaws(s.files, Name(stamp), Partial, s.replayer.name); }
    }
  }

  lemma CloseFileIsDisciplined(s: Sys, outcome: WriteOutcome)
    requires Disciplined(s)
    ensures Disciplined(CloseFile(s, outcome))
  {
    if s.flusher.Storing? {
      var name, content := s.flusher.name, if outcome.Complete? then Stored(s.flusher.batch) else Corrupt;
      FindAt(s.files, |s.files| - 1);
      var _ := CloseActsOnLast(s, content);
      if !s.replayer.Resting? {
        PutLaws(s.files, name, content, s.replayer.name);
        WithoutLaws(s.files, name, s.replayer.name);
      }
    }
  }

  lemma ListSpoolIsDisciplined(s: Sys, at: nat)
    requires Disciplined(s)
    ensures Disciplined(ListSpool(s, at))
  {
    if IsOldest(Names(s.files), at) {
      FindAt(s.files, at);
    }
  }

  lemma BatchingIsDisciplined(s: Sys, a: Action)
    requires Disciplined(s) && (a.Arrival? || a.Ticker? || a.Answered?)
    ensures Disciplined(Apply(s, a))
  {
  }

  lemma ReplayAnswerIsDisciplined(s: Sys, accepted: bool)
    requires Disciplined(s)
    ensures Disciplined(ReplayAnswer(s, accepted))
  {
  }

  lemma LoadIsDisciplined(s: Sys, readable: bool)
    requires Disciplined(s)
    ensures Disciplined(Load(s, readable))
  {
  }

  lemma RemoveFileIsDisciplined(s: Sys)
    requires Disciplined(s)
    ensures Disciplined(RemoveFile(s))
  {
    if s.replayer.Written? || s.replayer.Unreadable? {
      WithoutLaws(s.files, s.replayer.name, s.replayer.name);
    }
  }

  lemma StepConserves(s: Sys, a: Action, x: Sample, found: nat)
    requires Disciplined(s) && Conserved(s, x, found)
    ensures Conserved(Apply(s, a), x, found)
  {
    match a {
      case Arrival(y) => ReceiveConserves(s, y, x, found);
      case Ticker => TickConserves(s, x, found);
      case Answered(answer) => FlushAnswerConserves(s, answer, x, found);
      case Open(stamp) => OpenFileConserves(s, stamp, x, found);
      case Close(outcome) => CloseFileConserves(s, outcome, x, found);
      case ListFiles(at) =>
      case Read(readable) => LoadConserves(s, readable, x, found);
      case ReplayAnswered(accepted) => ReplayAnswerConserves(s, accepted, x, found);
      case Delete => RemoveFileConserves(s, x, found);
    }
  }

  lemma StepIsDisciplined(s: Sys, a: Action)
    requires Disciplined(s)
    ensures Disciplined(Apply(s, a))
  {
    match a {
      case Open(stamp) => OpenFileIsDisciplined(s, stamp);
      case Close(outcome) => CloseFileIsDisciplined(s, outcome);
      case ListFiles(at) => ListSpoolIsDisciplined(s, at);
      case Delete => RemoveFileIsDisciplined(s);
      case Read(readable) => LoadIsDisciplined(s, readable);
      case ReplayAnswered(accepted) => ReplayAnswerIsDisciplined(s, accepted);
      case _ => BatchingIsDisciplined(s, a);
    }
  }

  lemma AscendingIsDistinct(files: seq<File>)
    requires Reopenable(files)
    ensures DistinctNames(files)
  {
    forall i, j | 0 <= i < j < |files| ensures files[i].name != files[j].name {
      LessTotal(files[i].name, files[j].name);
    }
  }

  /**
   Conservation over every interleaving: each sample found in the directory or received is at all
   times in exactly one of the buffer or the batch in hand, the historian, the spool, the deliberate
   drops, or the stored files that could not be read back, except that replay's write-to-remove
   window counts twice.
   */
  lemma {:induction false} EverySampleIsSomewhere(maxFiles: nat, files: seq<File>, actions: seq<Action>, x: Sample)
    requires Reopenable(files)
    ensures var s := Exec(Init(maxFiles, files), actions); Disciplined(s) && Conserved(s, x, InFiles(x, files))
  {
    if actions == [] {
      AscendingIsDistinct(files);
    } else {
      var before := Exec(Init(maxFiles, files), actions[..|actions| - 1]);
      EverySampleIsSomewhere(maxFiles, files, actions[..|actions| - 1], x);
      StepConserves(before, actions[|actions| - 1], x, InFiles(x, files));
      StepIsDisciplined(before, actions[|actions| - 1]);
    }
  }

  // ---- the corrupt-file branch -------------------------------------------------------

  /** A stored file is only ever removed unread after a complete file failed to be read. */
  ghost predicate LosesNothing(s: Sys) {
    !s.order.faulty ==>
      && (forall i | 0 <= i < |s.order.removed| :: s.order.removed[i].written)
      && (s.replayer.Unreadable? ==> Find(s.files, s.replayer.name) == Some(Corrupt))
  }

  lemma OpenLosesNothing(s: Sys, stamp: nat)
    requires Disciplined(s) && LosesNothing(s)
    ensures LosesNothing(OpenFile(s, stamp))
  {
    if s.flusher.Enqueuing? && !HasName(s.files, Name(stamp)) && s.replayer.Unreadable? {
      PutLaws(s.files, Name(stamp), Partial, s.replayer.name);
    }
  }

  lemma CloseLosesNothing(s: Sys, outcome: WriteOutcome)
    requires Disciplined(s) && LosesNothing(s)
    ensures LosesNothing(CloseFile(s, outcome))
  {
    if s.flusher.Storing? && s.replayer.Unreadable? {
      FindAt(s.files, |s.files| - 1);
      PutLaws(s.files, s.flusher.name, if outcome.Complete? then Stored(s.flusher.batch) else Corrupt, s.replayer.name);
      WithoutLaws(s.files, s.flusher.name, s.replayer.name);
    }
  }

  lemma LoadLosesNothing(s: Sys, readable: bool)
    requires Disciplined(s) && LosesNothing(s)
    ensures LosesNothing(Load(s, readable))
  {
  }

  lemma RemoveLosesNothing(s: Sys)
    requires Disciplined(s) && LosesNothing(s)
    ensures LosesNothing(RemoveFile(s))
  {
  }

  lemma StepLosesNothing(s: Sys, a: Action)
    requires Disciplined(s) && LosesNothing(s)
    ensures LosesNothing(Apply(s, a))
  {
    match a {
      case Open(stamp) => OpenLosesNothing(s, stamp);
      case Close(outcome) => CloseLosesNothing(s, outcome);
      case Read(readable) => LoadLosesNothing(s, readable);
      case Delete => RemoveLosesNothing(s);
      case _ =>
    }
  }

  /**
   Because listing waits for the mutex, replay never meets a half-written file: as long as complete
   files can be read, the corrupt-file branch discards no batch that Enqueue reported stored.
   */
  lemma {:induction false} CorruptBranchDiscardsNothingStored(maxFiles: nat, files: seq<File>, actions: seq<Action>)
    requires Reopenable(files)
    ensures var s := Exec(Init(maxFiles, files), actions); Disciplined(s) && LosesNothing(s)
  {
    if actions == [] {
      AscendingIsDistinct(files);
    } else {
      var before := Exec(Init(maxFiles, files), actions[..|actions| - 1]);
      CorruptBranchDiscardsNothingStored(maxFiles, files, actions[..|actions| - 1]);
      StepIsDisciplined(before, actions[|actions| - 1]);
      StepLosesNothing(before, actions[|actions| - 1]);
    }
  }

  lemma {:induction false} FaultNeedsFailedRead(maxFiles: nat, files: seq<File>, actions: seq<Action>)
    requires Read(false) !in actions
    ensures !Exec(Init(maxFiles, files), actions).order.faulty
  {
    if actions != [] {
      FaultNeedsFailedRead(maxFiles, files, actions[..|actions| - 1]);
      assert actions[|actions| - 1] in actions;
    }
  }
}
