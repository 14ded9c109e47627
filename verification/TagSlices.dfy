/**
 Go's tag slices on the heap: a length over a backing array that appends and in-place edits
 write to. Each operation is one loop of the configuration store.
 */
module TagSlices {
  import opened Wrappers
  import opened Core
  import opened TagLists

  datatype Slice = Slice(arr: array<Tag>, len: nat) {
    ghost predicate Valid() {
      len <= arr.Length
    }

    ghost function Tags(): seq<Tag>
      requires Valid()
      reads arr
    {
      arr[..len]
    }
  }

  const ZERO: Tag := Tag("", "", "", "", false, 0, false, false, "")

  /** A slice over a backing array of its own. */
  method Fresh(tags: seq<Tag>) returns (s: Slice)
    ensures s.Valid() && fresh(s.arr) && s.Tags() == tags
  {
    var arr := new Tag[|tags|](i requires 0 <= i < |tags| => tags[i]);
    s := Slice(arr, |tags|);
    assert arr[..|tags|] == tags;
  }

  /** append: in place while the backing array has room, otherwise into a larger copy. */
  method Append(s: Slice, t: Tag) returns (r: Slice)
    requires s.Valid()
    modifies s.arr
    ensures r.Valid() && (r.arr == s.arr || fresh(r.arr))
    ensures r.Tags() == old(s.Tags()) + [t]
  {
    if s.len < s.arr.Length {
      s.arr[s.len] := t;
      r := Slice(s.arr, s.len + 1);
    } else {
      var capacity: nat :| capacity > s.len;
      var kept := s.arr[..];
      var arr := new Tag[capacity](
        i requires 0 <= i < capacity => if i < |kept| then kept[i] else if i == |kept| then t else ZERO);
      r := Slice(arr, s.len + 1);
      assert arr[..s.len + 1] == kept + [t];
    }
  }

  method SetAt(s: Slice, i: nat, t: Tag)
    requires s.Valid() && i < s.len
    modifies s.arr
    ensures s.Tags() == old(s.Tags())[i := t]
  {
    s.arr[i] := t;
  }

  /** The loop of UpsertTag: the first tag with the id is replaced in place, otherwise one is appended. */
  method Upsert(s: Slice, tag: Tag) returns (r: Slice)
    requires s.Valid()
    modifies s.arr
    ensures r.Valid() && (r.arr == s.arr || fresh(r.arr))
    ensures r.Tags() == UpsertOne(old(s.Tags()), tag)
  {
    ghost var before := s.Tags();
    for i := 0 to s.len
      invariant s.Tags() == before
      invariant forall j | 0 <= j < i :: before[j].id != tag.id
    {
      if s.arr[i].id == tag.id {
        FirstIs(before, i);
        SetAt(s, i, tag);
        return s;
      }
    }
    r := Append(s, tag);
  }

  lemma FirstIs(tags: seq<Tag>, i: nat)
    requires i < |tags| && forall j | 0 <= j < i :: tags[j].id != tags[i].id
    ensures FirstWith(tags, tags[i].id) == Some(i)
  {
    var f := FirstWith(tags, tags[i].id);
    assert HasId(tags, tags[i].id);
    assert !(f.value < i) && !(i < f.value);
  }

  /** The index map holds exactly the ids present, each at its last position. */
  ghost predicate Indexes(byId: map<string, nat>, tags: seq<Tag>) {
    forall id :: if id in byId then LastWith(tags, id) == Some(byId[id]) else LastWith(tags, id) == None
  }

  lemma IndexAfterAppend(byId: map<string, nat>, tags: seq<Tag>, t: Tag)
    requires Indexes(byId, tags)
    ensures Indexes(byId[t.id := |tags|], tags + [t])
  {
    var all := tags + [t];
    assert all[..|tags|] == tags;
  }

  lemma {:induction false} LastAfterUpdate(tags: seq<Tag>, i: nat, t: Tag, id: string)
    requires i < |tags| && tags[i].id == t.id
    ensures LastWith(tags[i := t], id) == LastWith(tags, id)
  {
    var n := |tags| - 1;
    if i < n {
      LastAfterUpdate(tags[..n], i, t, id);
      assert tags[i := t][..n] == tags[..n][i := t];
    } else {
      assert tags[i := t][..n] == tags[..n];
    }
  }

  lemma IndexAfterUpdate(byId: map<string, nat>, tags: seq<Tag>, i: nat, t: Tag)
    requires Indexes(byId, tags) && i < |tags| && tags[i].id == t.id
    ensures Indexes(byId, tags[i := t])
  {
    forall id ensures LastWith(tags[i := t], id) == LastWith(tags, id) {
      LastAfterUpdate(tags, i, t, id);
    }
  }

  method BuildIndex(s: Slice) returns (byId: map<string, nat>)
    requires s.Valid()
    ensures Indexes(byId, s.Tags())
  {
    byId := map[];
    for i := 0 to s.len
      invariant Indexes(byId, s.arr[..i])
    {
      IndexAfterAppend(byId, s.arr[..i], s.arr[i]);
      assert s.arr[..i + 1] == s.arr[..i] + [s.arr[i]];
      byId := byId[s.arr[i].id := i];
    }
  }

  /** One turn of the merge loop. */
  method MergeStep(s: Slice, byId: map<string, nat>, tag: Tag) returns (r: Slice, byId': map<string, nat>, isNew: bool)
    requires s.Valid() && Indexes(byId, s.Tags())
    modifies s.arr
    ensures r.Valid() && (r.arr == s.arr || fresh(r.arr))
    ensures r.Tags() == MergeOne(old(s.Tags()), Defaulted(tag)) && Indexes(byId', r.Tags())
    ensures isNew <==> |r.Tags()| == |old(s.Tags())| + 1
    ensures |r.Tags()| == |old(s.Tags())| || |r.Tags()| == |old(s.Tags())| + 1
  {
    var t := if tag.intervalMs <= 0 then tag.(intervalMs := 1000) else tag;
    ghost var before := s.Tags();
    if t.id in byId {
      var j := byId[t.id];
      IndexAfterUpdate(byId, before, j, t);
      SetAt(s, j, t);
      r, byId', isNew := s, byId, false;
    } else {
      IndexAfterAppend(byId, before, t);
      r := Append(s, t);
      byId', isNew := byId[t.id := r.len - 1], true;
    }
  }

  /** The merge loop: `byId` agrees with the slice in every turn. */
  method MergeInto(s: Slice, tags: seq<Tag>) returns (r: Slice, added: nat, updated: nat)
    requires s.Valid()
    modifies s.arr
    ensures r.Valid() && (r.arr == s.arr || fresh(r.arr))
    ensures r.Tags() == Merged(old(s.Tags()), tags)
    ensures added + updated == |tags| && |r.Tags()| == |old(s.Tags())| + added
  {
    var byId := BuildIndex(s);
    r, added, updated := s, 0, 0;
    ghost var before := s.Tags();
    for c := 0 to |tags|
      invariant r.Valid() && (r.arr == s.arr || fresh(r.arr))
      invariant r.Tags() == Merged(before, tags[..c]) && Indexes(byId, r.Tags())
      invariant added + updated == c && |r.Tags()| == |before| + added
    {
      assert tags[..c + 1][..c] == tags[..c];
      var isNew;
      r, byId, isNew := MergeStep(r, byId, tags[c]);
      if isNew {
        added := added + 1;
      } else {
        updated := updated + 1;
      }
    }
    assert tags[..|tags|] == tags;
  }

  lemma WithoutNext(tags: seq<Tag>, i: nat, id: string)
    requires i < |tags|
    ensures Without(tags[..i + 1], id) ==
            if tags[i].id == id then Without(tags[..i], id) else Without(tags[..i], id) + [tags[i]]
  {
    assert tags[..i + 1][..i] == tags[..i];
  }

  /** After i turns of a compaction: the kept tags in front, the rest not yet touched. */
  ghost predicate Compacting(now: seq<Tag>, before: seq<Tag>, kept: nat, i: nat, id: string) {
    && |now| == |before| && kept <= i <= |before|
    && now[..kept] == Without(before[..i], id) && now[i..] == before[i..]
  }

  lemma CompactingKeeps(now: seq<Tag>, before: seq<Tag>, kept: nat, i: nat, id: string)
    requires Compacting(now, before, kept, i, id) && i < |now| && before[i].id != id
    ensures now[i] == before[i] && Compacting(now[kept := now[i]], before, kept + 1, i + 1, id)
  {
    WithoutNext(before, i, id);
    assert now[i..][0] == before[i..][0] && now[i..][1..] == before[i..][1..];
    assert now[i + 1..] == before[i + 1..];
    assert now[kept := now[i]][..kept + 1] == now[..kept] + [now[i]];
    assert now[kept := now[i]][i + 1..] == now[i + 1..];
  }

  lemma CompactingSkips(now: seq<Tag>, before: seq<Tag>, kept: nat, i: nat, id: string)
    requires Compacting(now, before, kept, i, id) && i < |now| && before[i].id == id
    ensures now[i] == before[i] && Compacting(now, before, kept, i + 1, id)
  {
    WithoutNext(before, i, id);
    assert now[i..][0] == before[i..][0] && now[i..][1..] == before[i..][1..];
    assert now[i + 1..] == before[i + 1..];
  }

  /** DeleteTag's compaction: the kept tags are moved to the front of the same array. */
  method Compact(s: Slice, id: string) returns (r: Slice, found: bool)
    requires s.Valid()
    modifies s.arr
    ensures r.Valid() && r.arr == s.arr && r.Tags() == Without(old(s.Tags()), id)
    ensures found <==> HasId(old(s.Tags()), id)
  {
    ghost var before := s.Tags();
    var w := 0;
    found := false;
    for i := 0 to s.len
      invariant Compacting(s.Tags(), before, w, i, id) && (found <==> w < i)
    {
      var t := s.arr[i];
      ghost var now := s.Tags();
      assert t == now[i] == now[i..][0] == before[i..][0];
      if t.id == id {
        CompactingSkips(now, before, w, i, id);
        found := true;
        continue;
      }
      CompactingKeeps(now, before, w, i, id);
      SetAt(s, w, t);
      w := w + 1;
    }
    assert before[..s.len] == before && s.arr[..w] == s.Tags()[..w];
    WithoutShortens(before, id);
    r := Slice(s.arr, w);
  }

  function EditedAt(tags: seq<Tag>, i: nat, filter: set<string>, apply: Tag -> Tag): seq<Tag>
    requires i < |tags|
  {
    tags[i := if Selected(tags[i], filter) then apply(tags[i]) else tags[i]]
  }

  method EditAt(s: Slice, i: nat, filter: set<string>, apply: Tag -> Tag) returns (hit: bool)
    requires s.Valid() && i < s.len
    modifies s.arr
    ensures hit <==> Selected(old(s.Tags())[i], filter)
    ensures s.Tags() == EditedAt(old(s.Tags()), i, filter, apply)
  {
    hit := filter == {} || s.arr[i].id in filter;
    if hit {
      SetAt(s, i, apply(s.arr[i]));
    }
  }

  /** The list after the first i turns of the loop. */
  ghost function EditedUpTo(tags: seq<Tag>, i: nat, filter: set<string>, apply: Tag -> Tag): (r: seq<Tag>)
    requires i <= |tags|
    ensures |r| == |tags| && forall j | i <= j < |tags| :: r[j] == tags[j]
  {
    if i == 0 then tags else EditedAt(EditedUpTo(tags, i - 1, filter, apply), i - 1, filter, apply)
  }

  lemma {:induction false} EditedPointwise(tags: seq<Tag>, i: nat, filter: set<string>, apply: Tag -> Tag)
    requires i <= |tags|
    ensures forall j | 0 <= j < i ::
      EditedUpTo(tags, i, filter, apply)[j] == if Selected(tags[j], filter) then apply(tags[j]) else tags[j]
  {
    if i > 0 {
      EditedPointwise(tags, i - 1, filter, apply);
    }
  }

  lemma EditedIsApplied(tags: seq<Tag>, filter: set<string>, apply: Tag -> Tag)
    ensures EditedUpTo(tags, |tags|, filter, apply) == Applied(tags, filter, apply)
  {
    EditedPointwise(tags, |tags|, filter, apply);
  }

  lemma CountNext(tags: seq<Tag>, i: nat, filter: set<string>)
    requires i < |tags|
    ensures CountSelected(tags[..i + 1], filter)
      == CountSelected(tags[..i], filter) + (if Selected(tags[i], filter) then 1 else 0)
  {
    assert tags[..i + 1][..i] == tags[..i];
  }

  /** setTagsBool's loop: the selected tags are edited where they are. */
  method ApplyInPlace(s: Slice, filter: set<string>, apply: Tag -> Tag) returns (updated: nat)
    requires s.Valid()
    modifies s.arr
    ensures s.Tags() == Applied(old(s.Tags()), filter, apply) && updated == CountSelected(old(s.Tags()), filter)
  {
    ghost var before := s.Tags();
    updated := 0;
    for i := 0 to s.len
      invariant s.Tags() == EditedUpTo(before, i, filter, apply)
      invariant updated == CountSelected(before[..i], filter)
    {
      CountNext(before, i, filter);
      assert s.Tags()[i] == before[i];
      var hit := EditAt(s, i, filter, apply);
      if hit {
        updated := updated + 1;
      }
    }
    assert before[..s.len] == before;
    EditedIsApplied(before, filter, apply);
  }
}
