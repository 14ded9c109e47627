/** What the operations of the configuration store do to the tag list of one device. */
module TagLists {
  import opened Wrappers
  import opened Core

  predicate UniqueIds(tags: seq<Tag>) {
    forall i, j | 0 <= i < j < |tags| :: tags[i].id != tags[j].id
  }

  predicate HasId(tags: seq<Tag>, id: string) {
    exists i | 0 <= i < |tags| :: tags[i].id == id
  }

  function FirstWith(tags: seq<Tag>, id: string): (r: Option<nat>)
    ensures r.Some? ==> r.value < |tags| && tags[r.value].id == id && forall i | 0 <= i < r.value :: tags[i].id != id
    ensures r.None? <==> !HasId(tags, id)
  {
    if tags == [] then None
    else if tags[0].id == id then Some(0)
    else
      assert HasId(tags, id) <==> HasId(tags[1..], id) by { HasIdTail(tags, id); }
      match FirstWith(tags[1..], id) case None => None case Some(i) => Some(i + 1)
  }

  lemma HasIdTail(tags: seq<Tag>, id: string)
    requires tags != [] && tags[0].id != id
    ensures HasId(tags, id) <==> HasId(tags[1..], id)
  {
    if HasId(tags, id) {
      var i :| 0 <= i < |tags| && tags[i].id == id;
      assert tags[1..][i - 1].id == id;
    }
  }

  function LastWith(tags: seq<Tag>, id: string): (r: Option<nat>)
    ensures r.Some? ==> r.value < |tags| && tags[r.value].id == id && forall i | r.value < i < |tags| :: tags[i].id != id
    ensures r.None? <==> !HasId(tags, id)
  {
    if tags == [] then None
    else if tags[|tags| - 1].id == id then Some(|tags| - 1)
    else LastWith(tags[..|tags| - 1], id)
  }

  // ---- checking a tag ----------------------------------------------------------------

  const VALUE_TYPES: set<string> := {"bool", "int64", "uint", "float64", "string", "datetime"}

  /** Which node ids parse, and how data type names are normalised. */
  datatype Rules = Rules(parses: string -> bool, norm: string -> string)

  function Defaulted(t: Tag): Tag {
    if t.intervalMs <= 0 then t.(intervalMs := 1000) else t
  }

  /** validateTagFields: the tag with its defaults filled in, unless its type is unknown. */
  function Validated(t: Tag, rules: Rules): (r: Option<Tag>)
    ensures r.Some? ==> r.value.id == t.id && r.value.nodeId == t.nodeId && r.value.intervalMs > 0
  {
    var n := rules.norm(t.datatyp);
    var typ := if n == "" then "float64" else n;
    if rules.norm(typ) in VALUE_TYPES then Some(Defaulted(t).(datatyp := typ)) else None
  }

  /** The checks of UpsertTag. */
  function Prepared(t: Tag, rules: Rules): (r: Option<Tag>)
    ensures r.Some? ==> r.value.id == t.id && r.value.nodeId == t.nodeId && r.value.intervalMs > 0
  {
    if t.id == "" || t.nodeId == "" || !rules.parses(t.nodeId) then None else Validated(t, rules)
  }

  /** What a missing interval and a missing type become; the rest of the tag stays. */
  ghost predicate FilledIn(after: Tag, t: Tag, typ: string) {
    && after.id == t.id && after.nodeId == t.nodeId && after.path == t.path && after.enabled == t.enabled
    && after.writable == t.writable && after.simulate == t.simulate && after.mode == t.mode
    && after.intervalMs == (if t.intervalMs > 0 then t.intervalMs else 1000)
    && after.datatyp == typ
  }

  /** A tag passes exactly if its normalised type, or float64 when it has none, is a known one. */
  lemma ValidatedMeans(t: Tag, rules: Rules)
    ensures var typ := if rules.norm(t.datatyp) == "" then "float64" else rules.norm(t.datatyp);
            && (Validated(t, rules).Some? <==> rules.norm(typ) in {"bool", "int64", "uint", "float64", "string", "datetime"})
            && (Validated(t, rules).Some? ==> FilledIn(Validated(t, rules).value, t, typ))
    ensures Prepared(t, rules).Some? <==>
            t.id != "" && t.nodeId != "" && rules.parses(t.nodeId) && Validated(t, rules).Some?
    ensures Prepared(t, rules).Some? ==> Prepared(t, rules) == Validated(t, rules)
    ensures FilledIn(Defaulted(t), t, t.datatyp)
  {
  }

  // ---- upserting and merging -----------------------------------------------------

  /** UpsertTag's change: the first tag with the id is replaced, or the tag is appended. */
  function UpsertOne(tags: seq<Tag>, t: Tag): seq<Tag> {
    match FirstWith(tags, t.id) case None => tags + [t] case Some(i) => tags[i := t]
  }

  /** One turn of MergeTags' loop: its index map leads to the last tag with the id. */
  function MergeOne(tags: seq<Tag>, t: Tag): seq<Tag> {
    match LastWith(tags, t.id) case None => tags + [t] case Some(i) => tags[i := t]
  }

  function Merged(tags: seq<Tag>, ts: seq<Tag>): seq<Tag> {
    if ts == [] then tags else MergeOne(Merged(tags, ts[..|ts| - 1]), Defaulted(ts[|ts| - 1]))
  }

  function Upserted(tags: seq<Tag>, ts: seq<Tag>): seq<Tag> {
    if ts == [] then tags else UpsertOne(Upserted(tags, ts[..|ts| - 1]), ts[|ts| - 1])
  }

  lemma FirstIsLast(tags: seq<Tag>, id: string)
    requires UniqueIds(tags)
    ensures FirstWith(tags, id) == LastWith(tags, id)
  {
    var f, l := FirstWith(tags, id), LastWith(tags, id);
    if f.Some? {
      assert !(f.value < l.value) && !(l.value < f.value);
    }
  }

  lemma MergeOneKeepsUnique(tags: seq<Tag>, t: Tag)
    requires UniqueIds(tags)
    ensures UniqueIds(MergeOne(tags, t))
  {
    var l := LastWith(tags, t.id);
    if l.None? {
      assert forall i | 0 <= i < |tags| :: tags[i].id != t.id;
    }
  }

  lemma {:induction false} MergedKeepsUnique(tags: seq<Tag>, ts: seq<Tag>)
    requires UniqueIds(tags)
    ensures UniqueIds(Merged(tags, ts))
  {
    if ts != [] {
      var init := ts[..|ts| - 1];
      MergedKeepsUnique(tags, init);
      MergeOneKeepsUnique(Merged(tags, init), Defaulted(ts[|ts| - 1]));
    }
  }

  predicate PositiveIntervals(ts: seq<Tag>) {
    forall i | 0 <= i < |ts| :: ts[i].intervalMs > 0
  }

  /** The indexed merge is the fold of single upserts, for every input with unique ids. */
  lemma {:induction false} MergeIsUpserts(tags: seq<Tag>, ts: seq<Tag>)
    requires UniqueIds(tags) && PositiveIntervals(ts)
    ensures Merged(tags, ts) == Upserted(tags, ts)
  {
    if ts != [] {
      var init := ts[..|ts| - 1];
      MergeIsUpserts(tags, init);
      MergedKeepsUnique(tags, init);
      FirstIsLast(Merged(tags, init), ts[|ts| - 1].id);
    }
  }

  /** With a repeated id a single tag already tells the two apart. */
  lemma DuplicatesTellThemApart(tags: seq<Tag>) returns (t: Tag)
    requires !UniqueIds(tags)
    ensures t.intervalMs > 0 && Merged(tags, [t]) != Upserted(tags, [t])
  {
    var i, j :| 0 <= i < j < |tags| && tags[i].id == tags[j].id;
    var first := FirstWith(tags, tags[i].id).value;
    t := tags[first].(intervalMs := 1000, enabled := !tags[first].enabled);
    assert LastWith(tags, t.id).value > first;
    assert [t][..0] == [];
    assert Merged(tags, [t]) == MergeOne(tags, t) && Upserted(tags, [t]) == UpsertOne(tags, t);
    assert MergeOne(tags, t)[first] == tags[first];
  }

  /** MergeTags refines repeated UpsertTag exactly on the devices whose tag ids are unique. */
  lemma MergeRefinesUpsertIffUnique(tags: seq<Tag>)
    ensures UniqueIds(tags) <==> forall ts | PositiveIntervals(ts) :: Merged(tags, ts) == Upserted(tags, ts)
  {
    if UniqueIds(tags) {
      forall ts | PositiveIntervals(ts) ensures Merged(tags, ts) == Upserted(tags, ts) {
        MergeIsUpserts(tags, ts);
      }
    } else {
      var t := DuplicatesTellThemApart(tags);
      assert PositiveIntervals([t]);
    }
  }

  // ---- what a merge does to each tag ---------------------------------------------------

  lemma MergeOneEffect(tags: seq<Tag>, t: Tag)
    requires UniqueIds(tags)
    ensures |tags| <= |MergeOne(tags, t)| <= |tags| + 1
    ensures |MergeOne(tags, t)| == |tags| <==> HasId(tags, t.id)
    ensures forall i | 0 <= i < |tags| :: MergeOne(tags, t)[i] == if tags[i].id == t.id then t else tags[i]
    ensures |MergeOne(tags, t)| > |tags| ==> MergeOne(tags, t)[|tags|] == t
  {
    var l := LastWith(tags, t.id);
    if l.Some? {
      assert forall i | 0 <= i < |tags| && i != l.value :: tags[i].id != t.id;
    } else {
      assert forall i | 0 <= i < |tags| :: tags[i].id != t.id;
    }
  }

  /** Existing tags keep their position, and their value unless the input names their id. */
  lemma {:induction false} MergedKeepsOthers(tags: seq<Tag>, ts: seq<Tag>, i: nat)
    requires UniqueIds(tags) && i < |tags|
    ensures |tags| <= |Merged(tags, ts)| && Merged(tags, ts)[i].id == tags[i].id
    ensures !HasId(ts, tags[i].id) ==> Merged(tags, ts)[i] == tags[i]
  {
    if ts != [] {
      var init, t := ts[..|ts| - 1], Defaulted(ts[|ts| - 1]);
      MergedKeepsOthers(tags, init, i);
      MergedKeepsUnique(tags, init);
      MergeOneEffect(Merged(tags, init), t);
      if !HasId(ts, tags[i].id) {
        assert ts[|ts| - 1].id != tags[i].id;
        assert forall k | 0 <= k < |init| :: ts[k] == init[k];
      }
    }
  }

  /** A tag of the input whose id does not come again is in the result. */
  lemma {:induction false} MergedHasInput(tags: seq<Tag>, ts: seq<Tag>, k: nat)
    requires UniqueIds(tags) && k < |ts| && forall m | k < m < |ts| :: ts[m].id != ts[k].id
    ensures Defaulted(ts[k]) in Merged(tags, ts)
  {
    var n := |ts| - 1;
    var t := Defaulted(ts[n]);
    var before := Merged(tags, ts[..n]);
    MergedKeepsUnique(tags, ts[..n]);
    MergeOneEffect(before, t);
    if k == n {
      var l := LastWith(before, t.id);
      if l.Some? {
        assert Merged(tags, ts)[l.value] == t;
      }
    } else {
      MergedHasInput(tags, ts[..n], k);
      var p :| 0 <= p < |before| && before[p] == Defaulted(ts[k]);
      assert Merged(tags, ts)[p] == before[p];
    }
  }

  /** Nothing else is in the result. */
  lemma {:induction false} MergedHasNothingElse(tags: seq<Tag>, ts: seq<Tag>, x: Tag)
    requires x in Merged(tags, ts)
    ensures x in tags || exists k | 0 <= k < |ts| :: x == Defaulted(ts[k])
  {
    if ts != [] {
      var n := |ts| - 1;
      if x in Merged(tags, ts[..n]) {
        MergedHasNothingElse(tags, ts[..n], x);
        if x !in tags {
          var k :| 0 <= k < n && x == Defaulted(ts[..n][k]);
          assert x == Defaulted(ts[k]);
        }
      } else {
        assert x == Defaulted(ts[n]);
      }
    }
  }

  // ---- deleting and setting flags ---------------------------------------------------------

  function Without(tags: seq<Tag>, id: string): (r: seq<Tag>)
    ensures |r| <= |tags|
  {
    if tags == [] then []
    else
      var n := |tags| - 1;
      if tags[n].id == id then Without(tags[..n], id) else Without(tags[..n], id) + [tags[n]]
  }

  /** Deleting from a concatenation is deleting from both parts, so the order of the rest is kept. */
  lemma {:induction false} WithoutOfConcat(a: seq<Tag>, b: seq<Tag>, id: string)
    ensures Without(a + b, id) == Without(a, id) + Without(b, id)
  {
    if b == [] {
      assert a + b == a;
    } else {
      var n := |b| - 1;
      WithoutOfConcat(a, b[..n], id);
      assert (a + b)[..|a + b| - 1] == a + b[..n];
    }
  }

  /** The id is gone afterwards, and a list that does not have it is left as it is. */
  lemma {:induction false} WithoutRemovesTheId(tags: seq<Tag>, id: string)
    ensures !HasId(Without(tags, id), id)
    ensures !HasId(tags, id) <==> Without(tags, id) == tags
    ensures forall t: Tag | t.id != id :: t in tags <==> t in Without(tags, id)
  {
    if tags != [] {
      var n := |tags| - 1;
      WithoutRemovesTheId(tags[..n], id);
      assert tags == tags[..n] + [tags[n]];
      if tags[n].id != id && HasId(tags, id) {
        var i :| 0 <= i < |tags| && tags[i].id == id;
        assert tags[..n][i].id == id;
      }
    }
  }

  lemma {:induction false} WithoutShortens(tags: seq<Tag>, id: string)
    ensures |Without(tags, id)| < |tags| <==> HasId(tags, id)
  {
    if tags != [] {
      var n := |tags| - 1;
      WithoutShortens(tags[..n], id);
      assert tags == tags[..n] + [tags[n]];
      if HasId(tags[..n], id) {
        var i :| 0 <= i < n && tags[..n][i].id == id;
        assert tags[i].id == id;
      }
    }
  }

  predicate Selected(t: Tag, filter: set<string>) {
    filter == {} || t.id in filter
  }

  function Applied(tags: seq<Tag>, filter: set<string>, apply: Tag -> Tag): (r: seq<Tag>)
    ensures |r| == |tags|
    ensures forall i | 0 <= i < |tags| :: r[i] == if Selected(tags[i], filter) then apply(tags[i]) else tags[i]
  {
    seq(|tags|, i requires 0 <= i < |tags| => if Selected(tags[i], filter) then apply(tags[i]) else tags[i])
  }

  function CountSelected(tags: seq<Tag>, filter: set<string>): nat {
    if tags == [] then 0
    else CountSelected(tags[..|tags| - 1], filter) + if Selected(tags[|tags| - 1], filter) then 1 else 0
  }

  lemma FilterMeans(tagIds: seq<string>, id: string)
    ensures id in Filter(tagIds) <==> id != "" && id in tagIds
  {
  }

  /** It counts the selected tags, each position once: those named, or all. */
  lemma {:induction false} CountSelectedCounts(tags: seq<Tag>, filter: set<string>)
    ensures CountSelected(tags, filter) == |Hits(tags, (t: Tag) => filter == {} || t.id in filter)|
  {
    if tags != [] {
      var n := |tags| - 1;
      CountSelectedCounts(tags[..n], filter);
      HitsSnoc(tags[..n], tags[n], (t: Tag) => filter == {} || t.id in filter);
      assert tags == tags[..n] + [tags[n]];
    }
  }

  /** The ids asked for, without the empty ones. */
  function Filter(tagIds: seq<string>): set<string> {
    set i | 0 <= i < |tagIds| && tagIds[i] != "" :: tagIds[i]
  }
}
