/** One turn of the spool replay as the sequential code it is. FlushReplay interleaves its steps. */
module ReplayLoop {
  import Text
  import opened Wrappers
  import opened Samples
  import opened Spool
  import opened FlushReplay

  /**
   The oldest file is taken: written and removed, kept for the next turn when the historian
   refuses it, or removed without being written when it cannot be read.
   */
  method ReplayTurn(sp: FileSpool, order: seq<nat>, readable: bool, accepted: bool)
    returns (written: Option<Batch>, ghost at: nat)
    requires sp.Valid() && IsOrder(order, |sp.files|)
    modifies sp
    ensures sp.Valid()
    ensures old(sp.files) == [] ==> written == None && sp.files == []
    ensures old(sp.files) != [] ==> IsOldest(Names(old(sp.files)), at)
    ensures old(sp.files) != [] ==>
      var f := old(sp.files)[at];
      if f.content.Stored? && readable && !accepted then written == None && sp.files == old(sp.files)
      else
        && written == (if f.content.Stored? && readable then Some(f.content.batch) else None)
        && sp.files == Without(old(sp.files), f.name)
  {
    written, at := None, 0;
    var files := sp.List(order);
    if |files| == 0 {
      return;
    }
    var path;
    path, at := PickOldest(files);
    OldestInAnyOrder(sp.files, order, files, at);
    at := order[at];
    FindAt(sp.files, at);
    var batch := sp.Load(path);
    if !readable || batch.Err? {
      var _ := sp.Remove(path);
      return;
    }
    if !accepted {
      return;
    }
    written := Some(batch.value);
    var _ := sp.Remove(path);
  }

  /** Which file is the oldest does not depend on the order of the listing. */
  lemma OldestInAnyOrder(files: seq<File>, order: seq<nat>, names: seq<string>, i: nat)
    requires DistinctNames(files) && IsOrder(order, |files|) && |names| == |files|
    requires forall j | 0 <= j < |names| :: names[j] == files[order[j]].name
    requires IsOldest(names, i)
    ensures IsOldest(Names(files), order[i]) && files[order[i]].name == names[i]
  {
    forall k | 0 <= k < |files|
      ensures !Text.Less(Names(files)[k], Names(files)[order[i]])
    {
      assert k in order;
      var j :| 0 <= j < |order| && order[j] == k;
      assert names[j] == files[k].name;
    }
  }

  /** An undisturbed turn is the protocol's four steps: list, load, write, remove. */
  lemma TurnIsFourSteps(s: Sys, at: nat, readable: bool, accepted: bool)
    requires Disciplined(s) && s.replayer.Resting? && !s.flusher.Storing? && IsOldest(Names(s.files), at)
    ensures var t := RemoveFile(ReplayAnswer(Load(ListSpool(s, at), readable), accepted));
            var f := s.files[at];
            && t.replayer.Resting?
            && t.files == (if f.content.Stored? && readable && !accepted then s.files else Without(s.files, f.name))
            && t.ledger.hist ==
               if f.content.Stored? && readable && accepted then s.ledger.hist + [f.content.batch] else s.ledger.hist
  {
    FindAt(s.files, at);
  }
}
