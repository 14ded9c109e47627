/**
 The order in which spooled batches are replayed. As long as new file names ascend, files leave the
 spool in the order they were stored, in every interleaving and whatever reads fail: replay writes
 them in that order and skips only those it could not read.
 */
module FlushOrder {
  import opened Wrappers
  import opened Text
  import opened Samples
  import opened Spool
  import opened FlushReplay

  lemma {:induction false} StoredFilesSnoc(files: seq<File>, f: File)
    ensures StoredFiles(files + [f]) == if f.content.Stored? then StoredFiles(files) + [f] else StoredFiles(files)
  {
    if files == [] {
      assert files + [f] == [f];
    } else {
      StoredFilesSnoc(files[1..], f);
      assert (files + [f])[1..] == files[1..] + [f];
    }
  }

  lemma {:induction false} StoredFilesAreFiles(files: seq<File>, f: File)
    ensures f in StoredFiles(files) <==> f in files && f.content.Stored?
  {
    if files != [] {
      StoredFilesAreFiles(files[1..], f);
    }
  }

  lemma {:induction false} StoredFilesAscend(files: seq<File>)
    requires NamesAscend(files)
    ensures NamesAscend(StoredFiles(files))
  {
    if files != [] {
      var stored := StoredFiles(files[1..]);
      StoredFilesAscend(files[1..]);
      forall j | 0 <= j < |stored| ensures Less(files[0].name, stored[j].name) {
        StoredFilesAreFiles(files[1..], stored[j]);
      }
    }
  }

  function FilesOf(removed: seq<Removal>): (r: seq<File>)
    ensures |r| == |removed| && forall i | 0 <= i < |r| :: r[i] == removed[i].file
  {
    seq(|removed|, i requires 0 <= i < |removed| => removed[i].file)
  }

  function WrittenOf(removed: seq<Removal>): seq<File> {
    if removed == [] then []
    else
      var n := |removed| - 1;
      WrittenOf(removed[..n]) + (if removed[n].written then [removed[n].file] else [])
  }

  lemma WrittenSnoc(removed: seq<Removal>, r: Removal)
    ensures WrittenOf(removed + [r]) == WrittenOf(removed) + (if r.written then [r.file] else [])
    ensures FilesOf(removed + [r]) == FilesOf(removed) + [r.file]
  {
    assert (removed + [r])[..|removed|] == removed;
  }

  /** The file that has been written and is about to be removed. */
  function Window(r: Replayer): seq<File> {
    if r.Written? then [File(r.name, Stored(r.batch))] else []
  }

  // ---- replay writes what it removes -----------------------------------------------------

  /** Replay wrote the files it removed as written, and the one in its write-to-remove window. */
  ghost predicate WritesWhatItRemoves(s: Sys) {
    s.order.replayed == WrittenOf(s.order.removed) + Window(s.replayer)
  }

  lemma RemoveWritesWhatItRemoves(s: Sys)
    requires Disciplined(s) && WritesWhatItRemoves(s)
    ensures WritesWhatItRemoves(RemoveFile(s))
  {
    if s.replayer.Written? || s.replayer.Unreadable? {
      var f := File(s.replayer.name, Find(s.files, s.replayer.name).value);
      WrittenSnoc(s.order.removed, Removal(f, s.replayer.Written?));
      assert s.order.removed + [] == s.order.removed;
    }
  }

  lemma OthersWriteWhatTheyRemove(s: Sys, a: Action)
    requires WritesWhatItRemoves(s) && !a.Delete?
    ensures WritesWhatItRemoves(Apply(s, a))
  {
    assert Apply(s, a).order.removed == s.order.removed;
  }

  lemma StepWritesWhatItRemoves(s: Sys, a: Action)
    requires Disciplined(s) && WritesWhatItRemoves(s)
    ensures WritesWhatItRemoves(Apply(s, a))
  {
    if a.Delete? {
      RemoveWritesWhatItRemoves(s);
    } else {
      OthersWriteWhatTheyRemove(s, a);
    }
  }

  // ---- files leave in the order they were stored --------------------------------------------

  ghost predicate Below(files: seq<File>, name: string) {
    forall i | 0 <= i < |files| :: Less(files[i].name, name)
  }

  ghost predicate AtMost(files: seq<File>, name: string) {
    forall i | 0 <= i < |files| :: files[i].name == name || Less(files[i].name, name)
  }

  /** Replay works on the first file. */
  ghost predicate AtFront(s: Sys) {
    !s.replayer.Resting? ==> s.files != [] && s.files[0].name == s.replayer.name
  }

  /** The stored files are, in order, those that were removed and those still on disk. */
  ghost predicate Queue(s: Sys) {
    s.order.spooled == FilesOf(s.order.removed) + StoredFiles(s.files)
  }

  ghost predicate Sorted(s: Sys) {
    && NamesAscend(s.files) && AtMost(s.files, s.order.lastName)
    && NamesAscend(s.order.spooled) && AtMost(s.order.spooled, s.order.lastName)
    && (s.flusher.Storing? ==> s.flusher.name == s.order.lastName && Below(s.order.spooled, s.order.lastName))
  }

  ghost predicate InOrder(s: Sys) {
    s.order.ascending ==> Sorted(s) && AtFront(s) && Queue(s)
  }

  lemma BelowAll(files: seq<File>, lastName: string, name: string)
    requires AtMost(files, lastName) && Less(lastName, name)
    ensures Below(files, name)
  {
    forall i | 0 <= i < |files| ensures Less(files[i].name, name) {
      if files[i].name != lastName { LessTransitive(files[i].name, lastName, name); }
    }
  }

  lemma OldestIsFirst(files: seq<File>, at: nat)
    requires NamesAscend(files) && IsOldest(Names(files), at)
    ensures at == 0
  {
    var first := Names(files)[0];
    assert !Less(first, Names(files)[at]) && first == files[0].name;
  }

  lemma OpenIsInOrder(s: Sys, stamp: nat)
    requires Disciplined(s) && InOrder(s)
    ensures InOrder(OpenFile(s, stamp))
  {
    var name, t := Name(stamp), OpenFile(s, stamp);
    if s.flusher.Enqueuing? && !HasName(s.files, name) && |s.files| < s.maxFiles && t.order.ascending {
      PutFresh(s, name, Partial);
      BelowAll(s.files, s.order.lastName, name);
      BelowAll(s.order.spooled, s.order.lastName, name);
      StoredFilesSnoc(s.files, File(name, Partial));
    }
  }

  /** Closing the last file leaves the files before it, and stores its batch or nothing. */
  lemma CloseStoresLast(s: Sys, outcome: WriteOutcome)
    requires Disciplined(s) && s.flusher.Storing?
    ensures var t := CloseFile(s, outcome);
            StoredFiles(t.files) == StoredFiles(s.files)
              + (if outcome.Complete? then [File(s.flusher.name, Stored(s.flusher.batch))] else [])
  {
    var c := if outcome.Complete? then Stored(s.flusher.batch) else Corrupt;
    var head := CloseActsOnLast(s, c);
    StoredFilesSnoc(head, File(s.flusher.name, Partial));
    StoredFilesSnoc(head, File(s.flusher.name, c));
  }

  lemma CloseKeepsFront(s: Sys, outcome: WriteOutcome)
    requires Disciplined(s) && s.flusher.Storing? && AtFront(s)
    ensures AtFront(CloseFile(s, outcome))
  {
    var _ := CloseActsOnLast(s, if outcome.Complete? then Stored(s.flusher.batch) else Corrupt);
    if !s.replayer.Resting? {
      FindAt(s.files, 0);
    }
  }

  lemma CloseKeepsSorted(s: Sys, outcome: WriteOutcome)
    requires Disciplined(s) && s.flusher.Storing? && Sorted(s)
    ensures Sorted(CloseFile(s, outcome))
  {
    var head := CloseActsOnLast(s, if outcome.Complete? then Stored(s.flusher.batch) else Corrupt);
    assert forall i | 0 <= i < |head| :: head[i] == s.files[i];
  }

  lemma CloseIsInOrder(s: Sys, outcome: WriteOutcome)
    requires Disciplined(s) && InOrder(s)
    ensures InOrder(CloseFile(s, outcome))
  {
    if s.flusher.Storing? && s.order.ascending {
      CloseKeepsSorted(s, outcome);
      CloseKeepsFront(s, outcome);
      CloseStoresLast(s, outcome);
    }
  }

  lemma ListIsInOrder(s: Sys, at: nat)
    requires InOrder(s)
    ensures InOrder(ListSpool(s, at))
  {
    if s.order.ascending && IsOldest(Names(s.files), at) {
      OldestIsFirst(s.files, at);
    }
  }

  lemma RemoveIsInOrder(s: Sys)
    requires Disciplined(s) && InOrder(s)
    ensures InOrder(RemoveFile(s))
  {
    if (s.replayer.Written? || s.replayer.Unreadable?) && !s.flusher.Storing? && s.order.ascending {
      FindAt(s.files, 0);
      assert Without(s.files, s.replayer.name) == s.files[1..];
      RemoveKeepsQueue(s);
    }
  }

  lemma RemoveKeepsQueue(s: Sys)
    requires (s.replayer.Written? || s.replayer.Unreadable?) && !s.flusher.Storing?
    requires s.files != [] && s.files[0].name == s.replayer.name && Queue(s)
    ensures Queue(RemoveFile(s))
  {
    var f, removed := s.files[0], s.order.removed;
    assert Without(s.files, f.name) == s.files[1..];
    WrittenSnoc(removed, Removal(f, s.replayer.Written?));
    assert removed + [] == removed;
  }

  /** Filling the buffer, hearing from the historian and reading do not concern the order. */
  lemma OtherStepsAreInOrder(s: Sys, a: Action)
    requires InOrder(s) && (a.Arrival? || a.Ticker? || a.Answered? || a.Read? || a.ReplayAnswered?)
    ensures InOrder(Apply(s, a))
  {
    var t := Apply(s, a);
    assert t.files == s.files && t.order.spooled == s.order.spooled && t.order.removed == s.order.removed;
    assert t.order.lastName == s.order.lastName && t.order.ascending == s.order.ascending;
  }

  lemma StepIsInOrder(s: Sys, a: Action)
    requires Disciplined(s) && InOrder(s)
    ensures InOrder(Apply(s, a))
  {
    match a {
      case Open(stamp) => OpenIsInOrder(s, stamp);
      case Close(outcome) => CloseIsInOrder(s, outcome);
      case ListFiles(at) => ListIsInOrder(s, at);
      case Delete => RemoveIsInOrder(s);
      case _ => OtherStepsAreInOrder(s, a);
    }
  }

  lemma StartIsSorted(maxFiles: nat, files: seq<File>)
    requires Reopenable(files)
    ensures Sorted(Init(maxFiles, files)) && Queue(Init(maxFiles, files))
  {
    var stored := StoredFiles(files);
    StoredFilesAscend(files);
    forall i | 0 <= i < |stored| ensures stored[i].name == LastName(files) || Less(stored[i].name, LastName(files)) {
      StoredFilesAreFiles(files, stored[i]);
    }
    assert FilesOf([]) + stored == stored;
  }

  lemma {:induction false} RunIsInOrder(maxFiles: nat, files: seq<File>, actions: seq<Action>)
    requires Reopenable(files)
    ensures var s := Exec(Init(maxFiles, files), actions); Disciplined(s) && InOrder(s) && WritesWhatItRemoves(s)
  {
    if actions == [] {
      AscendingIsDistinct(files);
      StartIsSorted(maxFiles, files);
    } else {
      var before := Exec(Init(maxFiles, files), actions[..|actions| - 1]);
      RunIsInOrder(maxFiles, files, actions[..|actions| - 1]);
      StepIsDisciplined(before, actions[|actions| - 1]);
      StepIsInOrder(before, actions[|actions| - 1]);
      StepWritesWhatItRemoves(before, actions[|actions| - 1]);
    }
  }

  // ---- what replay wrote -------------------------------------------------------------------

  lemma {:induction false} WrittenWereRemoved(removed: seq<Removal>, f: File) returns (i: nat)
    requires f in WrittenOf(removed)
    ensures i < |removed| && removed[i] == Removal(f, true)
  {
    i := |removed| - 1;
    if removed[i] != Removal(f, true) {
      i := WrittenWereRemoved(removed[..i], f);
    }
  }

  /** A removed file is among those written or among those unread. */
  lemma {:induction false} RemovedAreSplit(removed: seq<Removal>, i: nat)
    requires i < |removed|
    ensures if removed[i].written then removed[i].file in WrittenOf(removed) else removed[i].file in Unread(removed)
  {
    var n := |removed| - 1;
    if i < n {
      RemovedAreSplit(removed[..n], i);
    }
  }

  lemma {:induction false} WrittenAscend(removed: seq<Removal>)
    requires NamesAscend(FilesOf(removed))
    ensures NamesAscend(WrittenOf(removed))
  {
    if removed != [] {
      var n := |removed| - 1;
      var before, all := WrittenOf(removed[..n]), FilesOf(removed);
      assert forall i | 0 <= i < n :: FilesOf(removed[..n])[i] == all[i];
      WrittenAscend(removed[..n]);
      forall i | 0 <= i < |before| ensures Less(before[i].name, removed[n].file.name) {
        var k := WrittenWereRemoved(removed[..n], before[i]);
        assert all[k] == before[i] && all[n] == removed[n].file;
      }
    }
  }

  /** Counting the file in the window as removed, the removed files are the first ones stored. */
  lemma WindowIsNext(s: Sys) returns (gone: seq<Removal>)
    requires Disciplined(s) && s.order.ascending && InOrder(s) && WritesWhatItRemoves(s)
    ensures gone == s.order.removed || (s.replayer.Written? && |gone| == |s.order.removed| + 1)
    ensures gone[..|s.order.removed|] == s.order.removed && Unread(gone) == Unread(s.order.removed)
    ensures WrittenOf(gone) == s.order.replayed && FilesOf(gone) <= s.order.spooled
  {
    gone := s.order.removed;
    if s.replayer.Written? {
      var f := File(s.replayer.name, Stored(s.replayer.batch));
      FindAt(s.files, 0);
      assert s.files[0] == f && StoredFiles(s.files) == [f] + StoredFiles(s.files[1..]);
      WrittenSnoc(gone, Removal(f, true));
      UnreadSnoc(gone, Removal(f, true));
      gone := gone + [Removal(f, true)];
    }
  }

  /**
   With names that ascend, in every interleaving and whatever reads fail: the stored files are, in
   order, those removed and those still on disk, and replay wrote stored files in the order they
   were stored.
   */
  lemma ReplayIsInOrder(maxFiles: nat, files: seq<File>, actions: seq<Action>)
    requires Reopenable(files)
    ensures var s := Exec(Init(maxFiles, files), actions);
            s.order.ascending ==>
              && Queue(s) && NamesAscend(s.order.spooled) && NamesAscend(s.order.replayed)
              && forall f | f in s.order.replayed :: f in s.order.spooled
  {
    RunIsInOrder(maxFiles, files, actions);
    var s := Exec(Init(maxFiles, files), actions);
    if s.order.ascending {
      var gone := WindowIsNext(s);
      assert forall i | 0 <= i < |gone| :: FilesOf(gone)[i] == s.order.spooled[i];
      WrittenAscend(gone);
      forall f | f in s.order.replayed ensures f in s.order.spooled {
        var i := WrittenWereRemoved(gone, f);
        assert s.order.spooled[i] == f;
      }
    }
  }

  /** And it skipped only files it could not read: before a replayed file, every stored one was replayed or unread. */
  lemma OnlyUnreadIsSkipped(maxFiles: nat, files: seq<File>, actions: seq<Action>, i: nat, j: nat)
    requires Reopenable(files)
    ensures var s := Exec(Init(maxFiles, files), actions);
            s.order.ascending && i < j < |s.order.spooled| && s.order.spooled[j] in s.order.replayed ==>
              s.order.spooled[i] in s.order.replayed || s.order.spooled[i] in Unread(s.order.removed)
  {
    RunIsInOrder(maxFiles, files, actions);
    var s := Exec(Init(maxFiles, files), actions);
    var spooled := s.order.spooled;
    if s.order.ascending && i < j < |spooled| && spooled[j] in s.order.replayed {
      var gone := WindowIsNext(s);
      assert forall k | 0 <= k < |gone| :: FilesOf(gone)[k] == spooled[k];
      var k := WrittenWereRemoved(gone, spooled[j]);
      LessTotal(spooled[j].name, spooled[j].name);
      assert k == j;
      RemovedAreSplit(gone, i);
    }
  }

  lemma {:induction false} AllWritten(removed: seq<Removal>)
    requires forall i | 0 <= i < |removed| :: removed[i].written
    ensures WrittenOf(removed) == FilesOf(removed) && Unread(removed) == []
  {
    if removed != [] {
      var n := |removed| - 1;
      AllWritten(removed[..n]);
      assert FilesOf(removed) == FilesOf(removed[..n]) + [removed[n].file];
    }
  }

  /** Replay wrote a prefix of the stored files, and the rest is on disk; the file in the window is both. */
  ghost predicate Fifo(s: Sys) {
    && s.order.replayed <= s.order.spooled && Unread(s.order.removed) == []
    && StoredFiles(s.files) == Window(s.replayer) + s.order.spooled[|s.order.replayed|..]
  }

  lemma NothingSkipped(s: Sys)
    requires Disciplined(s) && s.order.ascending && InOrder(s) && WritesWhatItRemoves(s)
    requires forall i | 0 <= i < |s.order.removed| :: s.order.removed[i].written
    ensures Fifo(s)
  {
    var (n, spooled) := (|s.order.removed|, s.order.spooled);
    AllWritten(s.order.removed);
    assert spooled[n..] == StoredFiles(s.files);
    if s.replayer.Written? {
      FindAt(s.files, 0);
      assert spooled[n..][0] == Window(s.replayer)[0] && spooled[n] == spooled[n..][0];
      assert spooled[..n + 1] == spooled[..n] + Window(s.replayer);
    }
  }

  /** Without failed reads nothing is skipped: replay is first in, first out. */
  lemma ReplayIsFifo(maxFiles: nat, files: seq<File>, actions: seq<Action>)
    requires Reopenable(files)
    ensures var s := Exec(Init(maxFiles, files), actions); s.order.ascending && !s.order.faulty ==> Fifo(s)
  {
    RunIsInOrder(maxFiles, files, actions);
    CorruptBranchDiscardsNothingStored(maxFiles, files, actions);
    var s := Exec(Init(maxFiles, files), actions);
    if s.order.ascending && !s.order.faulty {
      NothingSkipped(s);
    }
  }

  // ---- when the names ascend ----------------------------------------------------------

  /** Every clock reading used for a name has as many digits, is later than the one before, and its name comes after `first`. */
  ghost predicate SteadyClock(actions: seq<Action>, digits: nat, first: string) {
    && (forall i | 0 <= i < |actions| && actions[i].Open? ::
          |Decimal(actions[i].stamp)| == digits && Less(first, Name(actions[i].stamp)))
    && (forall i, j | 0 <= i < j < |actions| && actions[i].Open? && actions[j].Open? :: actions[i].stamp < actions[j].stamp)
  }

  /** A steady clock that goes on after the files found at the start gives ascending names. */
  lemma {:induction false} SteadyClockAscends(maxFiles: nat, files: seq<File>, actions: seq<Action>, digits: nat)
    returns (last: nat)
    requires SteadyClock(actions, digits, LastName(files))
    ensures var s := Exec(Init(maxFiles, files), actions);
            && s.order.ascending
            && (s.order.lastName == LastName(files) ||
                (last < |actions| && actions[last].Open? && s.order.lastName == Name(actions[last].stamp)))
  {
    last := 0;
    if actions != [] {
      var n := |actions| - 1;
      var before := Exec(Init(maxFiles, files), actions[..n]);
      last := SteadyClockAscends(maxFiles, files, actions[..n], digits);
      if actions[n].Open? {
        if before.order.lastName != LastName(files) {
          assert actions[..n][last] == actions[last];
          NamesFollowTheClock(actions[last].stamp, actions[n].stamp);
        }
        if Apply(before, actions[n]).order.lastName != before.order.lastName { last := n; }
      }
    }
  }

  /** Put together: with a steady clock replay writes in spool order, and without failed reads loses nothing. */
  lemma ReplayWritesInSpoolOrder(maxFiles: nat, files: seq<File>, actions: seq<Action>, digits: nat)
    requires Reopenable(files) && SteadyClock(actions, digits, LastName(files))
    ensures var s := Exec(Init(maxFiles, files), actions);
            && Queue(s) && NamesAscend(s.order.spooled) && NamesAscend(s.order.replayed)
            && (forall f | f in s.order.replayed :: f in s.order.spooled)
            && (Read(false) !in actions ==> Fifo(s))
  {
    var last := SteadyClockAscends(maxFiles, files, actions, digits);
    ReplayIsInOrder(maxFiles, files, actions);
    if Read(false) !in actions {
      FaultNeedsFailedRead(maxFiles, files, actions);
      ReplayIsFifo(maxFiles, files, actions);
    }
  }
}
