/** One flush through the capacity policy: what the historian's verdict does to the batch. */
module FlushPolicy {
  import opened Samples
  import opened Spool
  import opened FlushReplay
  import opened FlushLoop
  import C = Capacity

  /**
   A batch is written only if there was room for it or no telling. It is discarded on a halt only if
   the policy removed nothing to make room for it; once room was made it is written, or goes to the
   spool whenever the spool can take it.
   */
  method FlushThroughPolicy(batch: Batch, db: C.Database, policy: C.Policy, limit: int, inserts: bool,
                            stamp: nat, write: WriteOutcome, sp: FileSpool) returns (fate: Fate)
    requires sp.Valid() && batch != []
    modifies db`calls, db`chunks, db`drops, sp
    ensures sp.Valid()
    ensures old(db.HonestFromNow()) && limit > 0 ==>
      && (fate == ToHistorian <==>
            inserts && (if policy == C.DropOldest then old(db.Used()) < C.Approach(limit) || db.Used() < limit
                        else old(db.Used()) < limit))
      && (fate == DropOnHalt <==> old(db.Used()) >= limit && (policy != C.DropOldest || !old(db.Droppable())))
    ensures fate == DropOnHalt ==> db.drops == old(db.drops) && sp.files == old(sp.files)
    ensures db.drops > old(db.drops) && |old(sp.files)| < sp.maxFiles && write == Complete ==>
      fate == ToHistorian || (fate == ToSpool(Name(stamp)) && sp.files == Put(old(sp.files), Name(stamp), Stored(batch)))
  {
    var answer;
    ghost var first, last;
    answer, first, last := C.WriteBatch(db, policy, limit, batch, inserts);
    fate := Flush(batch, 0, World(_ => answer, _ => stamp, _ => write), sp);
  }
}
