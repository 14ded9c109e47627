/** Optional values and results, used where the source returns nil pointers or errors. */
module Wrappers {
  datatype Option<+T> = None | Some(value: T)

  datatype Result<+T> = Err | Ok(value: T)

  /** Where the elements with a property are; its size counts them. */
  ghost function Hits<T>(xs: seq<T>, p: T -> bool): set<nat> {
    set i | 0 <= i < |xs| && p(xs[i])
  }

  lemma HitsSnoc<T>(xs: seq<T>, x: T, p: T -> bool)
    ensures Hits(xs + [x], p) == Hits(xs, p) + (if p(x) then {|xs|} else {})
    ensures |Hits(xs + [x], p)| == |Hits(xs, p)| + (if p(x) then 1 else 0)
  {
    var all := xs + [x];
    assert forall i | 0 <= i < |xs| :: all[i] == xs[i];
    assert all[|xs|] == x;
    assert Hits(all, p) == Hits(xs, p) + (if p(x) then {|xs|} else {});
  }
}
