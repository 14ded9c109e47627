/**
 Tag ids for a bulk upsert: one tag per distinct node id, no id used twice. The base id, the
 node suffix and everything else a tag carries are arbitrary functions of the item.
 */
module TagIds {
  import opened Wrappers
  import opened Text

  /** An item of the browse result; an empty node id stands for a missing one (or a missing item). */
  datatype Item<T> = Item(nodeId: string, payload: T)

  datatype Tag<T> = Tag(id: string, nodeId: string, payload: T)

  // ---- candidate ids ----------------------------------------------------------

  /** Every run of white space becomes one underscore. */
  function SpacesToUnderscore(s: string): string {
    if s == "" then ""
    else
      var init, c := s[..|s| - 1], s[|s| - 1];
      var r := SpacesToUnderscore(init);
      if !IsSpace(c, JS_SPACE) then r + [c]
      else if init != "" && IsSpace(init[|init| - 1], JS_SPACE) then r
      else r + ['_']
  }

  /** Every run of underscores becomes one. */
  function Collapse(s: string): string {
    if s == "" then ""
    else
      var init, c := s[..|s| - 1], s[|s| - 1];
      if c == '_' && init != "" && init[|init| - 1] == '_' then Collapse(init) else Collapse(init) + [c]
  }

  function SanitizeId(s: string): string {
    SpacesToUnderscore(TrimSpace(s, JS_SPACE))
  }

  function Clean(s: string): string {
    Collapse(Lower(SanitizeId(s)))
  }

  /** The ids tried for a taken base id: with the node suffix, then with 2, 3, and so on after it. */
  function Candidate(id: string, suf: string, k: nat): string {
    Clean(if k == 0 then id + "_" + suf else id + "_" + suf + "_" + Decimal(k + 1))
  }

  predicate NoUnderscore(s: string) {
    forall i | 0 <= i < |s| :: s[i] != '_'
  }

  /** What follows the last underscore. */
  function AfterLast(s: string): string {
    if s == "" || s[|s| - 1] == '_' then "" else AfterLast(s[..|s| - 1]) + [s[|s| - 1]]
  }

  lemma {:induction false} AfterLastIsTail(x: string, d: string)
    requires x != "" && x[|x| - 1] == '_' && NoUnderscore(d)
    ensures AfterLast(x + d) == d
  {
    if d == "" {
      assert x + d == x;
    } else {
      var n := |d| - 1;
      AfterLastIsTail(x, d[..n]);
      assert (x + d)[..|x + d| - 1] == x + d[..n];
    }
  }

  predicate EndsInUnderscore(x: string) {
    x != "" && x[|x| - 1] == '_'
  }

  lemma {:induction false} LowerKeepsDigits(x: string, d: string)
    requires AllDigits(d)
    ensures Lower(x + d) == Lower(x) + d
    ensures EndsInUnderscore(x) ==> EndsInUnderscore(Lower(x))
  {
    if d == "" {
      assert x + d == x;
    } else {
      var n := |d| - 1;
      LowerKeepsDigits(x, d[..n]);
      assert IsDigit(d[n]);
      assert (x + d)[..|x + d| - 1] == x + d[..n];
    }
  }

  lemma {:induction false} SpacesKeepDigits(x: string, d: string)
    requires AllDigits(d)
    ensures SpacesToUnderscore(x + d) == SpacesToUnderscore(x) + d
    ensures EndsInUnderscore(x) ==> EndsInUnderscore(SpacesToUnderscore(x))
  {
    if d == "" {
      assert x + d == x;
      if EndsInUnderscore(x) {
        JsVisible('_');
      }
    } else {
      var n := |d| - 1;
      SpacesKeepDigits(x, d[..n]);
      assert IsDigit(d[n]);
      JsVisible(d[n]);
      assert (x + d)[..|x + d| - 1] == x + d[..n];
    }
  }

  lemma {:induction false} CollapseKeepsEnd(x: string)
    requires EndsInUnderscore(x)
    ensures EndsInUnderscore(Collapse(x))
  {
    var init := x[..|x| - 1];
    if EndsInUnderscore(init) {
      CollapseKeepsEnd(init);
    }
  }

  lemma {:induction false} CollapseKeepsDigits(x: string, d: string)
    requires AllDigits(d)
    ensures Collapse(x + d) == Collapse(x) + d
  {
    if d == "" {
      assert x + d == x;
    } else {
      var n := |d| - 1;
      CollapseKeepsDigits(x, d[..n]);
      assert IsDigit(d[n]);
      assert (x + d)[..|x + d| - 1] == x + d[..n];
    }
  }

  lemma JsVisible(c: char)
    requires '!' <= c <= '~'
    ensures !IsSpace(c, JS_SPACE)
  {
    InRangesMeans(c as int, JS_SPACE);
  }

  lemma SpaceDrops(c: char, s: string)
    requires IsSpace(c, JS_SPACE)
    ensures TrimLeft([c] + s, JS_SPACE) == TrimLeft(s, JS_SPACE)
  {
    assert ([c] + s)[1..] == s;
  }

  lemma {:induction false} TrimLeftKeepsTail(x: string, d: string)
    requires EndsInUnderscore(x)
    ensures TrimLeft(x + d, JS_SPACE) == TrimLeft(x, JS_SPACE) + d && EndsInUnderscore(TrimLeft(x, JS_SPACE))
  {
    if IsSpace(x[0], JS_SPACE) {
      var y := x[1..];
      JsVisible('_');
      assert x == [x[0]] + y && x + d == [x[0]] + (y + d);
      TrimLeftKeepsTail(y, d);
      SpaceDrops(x[0], y);
      SpaceDrops(x[0], y + d);
    } else {
      assert (x + d)[0] == x[0];
    }
  }

  lemma TrimKeepsTail(x: string, d: string)
    requires EndsInUnderscore(x) && d != "" && AllDigits(d)
    ensures TrimSpace(x + d, JS_SPACE) == TrimLeft(x, JS_SPACE) + d && EndsInUnderscore(TrimLeft(x, JS_SPACE))
  {
    TrimLeftKeepsTail(x, d);
    var t := TrimLeft(x, JS_SPACE) + d;
    assert IsDigit(d[|d| - 1]) && t[|t| - 1] == d[|d| - 1];
    JsVisible(t[|t| - 1]);
  }

  lemma LowerSpacesKeepTail(t: string, d: string)
    requires EndsInUnderscore(t) && AllDigits(d)
    ensures Lower(SpacesToUnderscore(t + d)) == Lower(SpacesToUnderscore(t)) + d
    ensures EndsInUnderscore(Lower(SpacesToUnderscore(t)))
  {
    SpacesKeepDigits(t, d);
    LowerKeepsDigits(SpacesToUnderscore(t), d);
  }

  lemma CollapseKeepsNumber(y: string, d: string)
    requires EndsInUnderscore(y) && AllDigits(d)
    ensures AfterLast(Collapse(y + d)) == d
  {
    CollapseKeepsDigits(y, d);
    CollapseKeepsEnd(y);
    DigitsHaveNoUnderscore(d);
    AfterLastIsTail(Collapse(y), d);
  }

  lemma DigitsHaveNoUnderscore(d: string)
    requires AllDigits(d)
    ensures NoUnderscore(d)
  {
    assert forall i | 0 <= i < |d| :: IsDigit(d[i]);
  }

  /** The number survives the clean-up as the part after the last underscore. */
  lemma CleanKeepsNumber(x: string, d: string)
    requires EndsInUnderscore(x) && d != "" && AllDigits(d)
    ensures AfterLast(Clean(x + d)) == d
  {
    TrimKeepsTail(x, d);
    LowerSpacesKeepTail(TrimLeft(x, JS_SPACE), d);
    CollapseKeepsNumber(Lower(SpacesToUnderscore(TrimLeft(x, JS_SPACE))), d);
  }

  lemma CandidateNumber(id: string, suf: string, k: nat)
    requires k >= 1
    ensures AfterLast(Candidate(id, suf, k)) == Decimal(k + 1)
  {
    CleanKeepsNumber(id + "_" + suf + "_", Decimal(k + 1));
  }

  /** All candidates of one item. */
  function Candidates(id: string, suf: string): nat -> string {
    (k: nat) => Candidate(id, suf, k)
  }

  ghost predicate NumberedDiffer(cand: nat -> string) {
    forall j: nat, k: nat | 1 <= j < k :: cand(j) != cand(k)
  }

  lemma NumbersTell(x: string, y: string, j: nat, k: nat)
    requires AfterLast(x) == Decimal(j + 1) && AfterLast(y) == Decimal(k + 1) && j != k
    ensures x != y
  {
    ValueOfDecimal(j + 1);
    ValueOfDecimal(k + 1);
  }

  /** Different numbers give different candidates, whatever the base id and the suffix are. */
  lemma CandidatesDiffer(id: string, suf: string)
    ensures NumberedDiffer(Candidates(id, suf))
  {
    var cand := Candidates(id, suf);
    forall j: nat, k: nat | 1 <= j < k ensures cand(j) != cand(k) {
      CandidateNumber(id, suf, j);
      CandidateNumber(id, suf, k);
      NumbersTell(cand(j), cand(k), j, k);
    }
  }

  // ---- one id -------------------------------------------------------------------

  /** The k-th candidate is the first one that is not used yet. */
  ghost predicate FirstFree(used: set<string>, cand: nat -> string, k: nat) {
    cand(k) !in used && forall j: nat | j < k :: cand(j) in used
  }

  /** The id an item gets when the ids in `used` are taken. */
  ghost predicate Chosen(used: set<string>, base: string, cand: nat -> string, id: string) {
    if base !in used then id == base
    else exists k: nat :: FirstFree(used, cand, k) && id == cand(k)
  }

  /** The renaming loop: it ends because the numbered candidates differ and the used ids are finitely many. */
  method Rename(usedIds: map<string, string>, ghost base: string, cand: nat -> string, nodeId: string) returns (id: string)
    requires nodeId !in usedIds.Values && base in usedIds && NumberedDiffer(cand)
    ensures Chosen(usedIds.Keys, base, cand, id)
  {
    var candidate := cand(0);
    var n := 2;
    ghost var tried: set<string> := {};
    while candidate in usedIds && usedIds[candidate] != nodeId
      invariant n >= 2 && candidate == cand(n - 2)
      invariant forall j: nat | j < n - 2 :: cand(j) in usedIds
      invariant tried <= usedIds.Keys
      invariant forall s | s in tried :: exists j: nat | 1 <= j < n - 2 :: s == cand(j)
      decreases if n == 2 then |usedIds.Keys| + 1 else |usedIds.Keys - tried|
    {
      if n == 2 {
        Smaller(usedIds.Keys, tried);
      } else {
        Shrinks(usedIds.Keys, tried, candidate);
        tried := tried + {candidate};
      }
      candidate := cand(n - 1);
      n := n + 1;
    }
    assert FirstFree(usedIds.Keys, cand, n - 2);
    id := candidate;
  }

  lemma Smaller(all: set<string>, tried: set<string>)
    ensures |all - tried| <= |all|
  {
    assert all == (all - tried) + (all * tried);
  }

  lemma Shrinks(all: set<string>, tried: set<string>, c: string)
    requires c in all && c !in tried
    ensures |all - (tried + {c})| < |all - tried|
  {
    assert all - tried == (all - (tried + {c})) + {c};
  }

  // ---- the whole list --------------------------------------------------------------

  predicate Known<T>(items: seq<Item<T>>, nodeId: string) {
    exists i | 0 <= i < |items| :: items[i].nodeId == nodeId
  }

  /** The items with a node id, each node id at its first occurrence. */
  function Firsts<T>(items: seq<Item<T>>): seq<Item<T>> {
    if items == [] then []
    else
      var init, last := items[..|items| - 1], items[|items| - 1];
      if last.nodeId == "" || Known(init, last.nodeId) then Firsts(init) else Firsts(init) + [last]
  }

  function WithoutNode<T>(items: seq<Item<T>>): nat {
    if items == [] then 0
    else WithoutNode(items[..|items| - 1]) + if items[|items| - 1].nodeId == "" then 1 else 0
  }

  function Ids<T>(tags: seq<Tag<T>>): set<string> {
    set i | 0 <= i < |tags| :: tags[i].id
  }

  /** The candidates for a base id and a node id. */
  type Numbering = (string, string) -> nat -> string

  function NumberedBy(suffix: string -> string): Numbering {
    (id: string, nodeId: string) => Candidates(id, suffix(nodeId))
  }

  /** Tag i belongs to item i, and its id is chosen against the ids before it. */
  ghost predicate Allocated<T>(firsts: seq<Item<T>>, tags: seq<Tag<T>>, base: Item<T> -> string, numbered: Numbering) {
    |tags| == |firsts| && forall i | 0 <= i < |tags| ::
      && tags[i].nodeId == firsts[i].nodeId && tags[i].payload == firsts[i].payload
      && Chosen(Ids(tags[..i]), base(firsts[i]), numbered(base(firsts[i]), firsts[i].nodeId), tags[i].id)
  }

  /** How many tags did not get their base id. */
  ghost function Renamed<T>(firsts: seq<Item<T>>, tags: seq<Tag<T>>, base: Item<T> -> string): nat
    requires |tags| == |firsts|
  {
    if tags == [] then 0
    else
      var n := |tags| - 1;
      Renamed(firsts[..n], tags[..n], base) + if base(firsts[n]) in Ids(tags[..n]) then 1 else 0
  }

  /** What the loop has established for the items seen so far. */
  ghost predicate Progress<T>(items: seq<Item<T>>, base: Item<T> -> string, numbered: Numbering,
                              tags: seq<Tag<T>>, used: map<string, string>, seen: set<string>)
  {
    && Allocated(Firsts(items), tags, base, numbered)
    && used.Keys == Ids(tags) && used.Values <= seen
    && Seen(items, seen)
  }

  ghost predicate Seen<T>(items: seq<Item<T>>, seen: set<string>) {
    forall s :: s in seen <==> s != "" && Known(items, s)
  }

  lemma SeenSnoc<T>(items: seq<Item<T>>, item: Item<T>, seen: set<string>)
    requires Seen(items, seen)
    ensures Seen(items + [item], if item.nodeId == "" then seen else seen + {item.nodeId})
  {
    KnownSnoc(items, item);
  }

  ghost predicate Counted<T>(items: seq<Item<T>>, base: Item<T> -> string, tags: seq<Tag<T>>,
                             skippedDuplicates: nat, renamed: nat)
  {
    && |tags| == |Firsts(items)|
    && |tags| + skippedDuplicates + WithoutNode(items) == |items|
    && renamed == Renamed(Firsts(items), tags, base)
  }

  method PickId(usedIds: map<string, string>, base: string, suf: string, nodeId: string)
    returns (id: string, renamed: nat)
    requires nodeId !in usedIds.Values
    ensures Chosen(usedIds.Keys, base, Candidates(base, suf), id)
    ensures renamed == if base in usedIds then 1 else 0
  {
    id, renamed := base, 0;
    if id in usedIds && usedIds[id] != nodeId {
      CandidatesDiffer(base, suf);
      id := Rename(usedIds, base, Candidates(base, suf), nodeId);
      renamed := 1;
    }
  }

  method AllocateUniqueTagIds<T>(items: seq<Item<T>>, base: Item<T> -> string, suffix: string -> string)
    returns (tags: seq<Tag<T>>, skippedDuplicates: nat, renamed: nat)
    ensures Allocated(Firsts(items), tags, base, NumberedBy(suffix))
    ensures |tags| == |Firsts(items)| && forall i | 0 <= i < |tags| :: tags[i].nodeId == Firsts(items)[i].nodeId
    ensures |tags| + skippedDuplicates + WithoutNode(items) == |items|
    ensures renamed == Renamed(Firsts(items), tags, base)
  {
    var usedIds: map<string, string> := map[];
    var seenNodes: set<string> := {};
    tags, skippedDuplicates, renamed := [], 0, 0;
    for c := 0 to |items|
      invariant Progress(items[..c], base, NumberedBy(suffix), tags, usedIds, seenNodes)
      invariant Counted(items[..c], base, tags, skippedDuplicates, renamed)
    {
      var item := items[c];
      assert items[..c + 1] == items[..c] + [item];
      if item.nodeId == "" {
        SkippedItem(items[..c], item, base, NumberedBy(suffix), tags, usedIds, seenNodes);
        SkippedCount(items[..c], item, base, tags, skippedDuplicates, renamed);
        continue;
      }
      if item.nodeId in seenNodes {
        SkippedItem(items[..c], item, base, NumberedBy(suffix), tags, usedIds, seenNodes);
        SkippedCount(items[..c], item, base, tags, skippedDuplicates, renamed);
        skippedDuplicates := skippedDuplicates + 1;
        continue;
      }
      var id, one := PickId(usedIds, base(item), suffix(item.nodeId), item.nodeId);
      TaggedItem(items[..c], item, id, base, NumberedBy(suffix), tags, usedIds, seenNodes);
      TaggedCount(items[..c], item, id, base, tags, skippedDuplicates, renamed);
      seenNodes := seenNodes + {item.nodeId};
      usedIds := usedIds[id := item.nodeId];
      tags := tags + [Tag(id, item.nodeId, item.payload)];
      renamed := renamed + one;
    }
    assert items[..|items|] == items;
  }

  lemma KnownSnoc<T>(items: seq<Item<T>>, item: Item<T>)
    ensures forall s :: Known(items + [item], s) <==> Known(items, s) || s == item.nodeId
  {
    var all := items + [item];
    forall s | Known(items, s) ensures Known(all, s) {
      var i :| 0 <= i < |items| && items[i].nodeId == s;
      assert all[i].nodeId == s;
    }
    assert all[|items|] == item;
  }

  lemma FirstsSnoc<T>(items: seq<Item<T>>, item: Item<T>)
    ensures Firsts(items + [item]) ==
            if item.nodeId == "" || Known(items, item.nodeId) then Firsts(items) else Firsts(items) + [item]
  {
    assert (items + [item])[..|items|] == items;
  }

  lemma SkippedItem<T>(items: seq<Item<T>>, item: Item<T>, base: Item<T> -> string, numbered: Numbering,
                       tags: seq<Tag<T>>, used: map<string, string>, seen: set<string>)
    requires Progress(items, base, numbered, tags, used, seen) && (item.nodeId == "" || item.nodeId in seen)
    ensures Progress(items + [item], base, numbered, tags, used, seen)
  {
    SeenSnoc(items, item, seen);
    FirstsSnoc(items, item);
    assert item.nodeId != "" ==> seen + {item.nodeId} == seen;
  }

  lemma TaggedItem<T>(items: seq<Item<T>>, item: Item<T>, id: string, base: Item<T> -> string, numbered: Numbering,
                      tags: seq<Tag<T>>, used: map<string, string>, seen: set<string>)
    requires Progress(items, base, numbered, tags, used, seen) && item.nodeId != "" && item.nodeId !in seen
    requires Chosen(Ids(tags), base(item), numbered(base(item), item.nodeId), id)
    ensures Progress(items + [item], base, numbered, tags + [Tag(id, item.nodeId, item.payload)],
                     used[id := item.nodeId], seen + {item.nodeId})
  {
    var firsts, tag := Firsts(items), Tag(id, item.nodeId, item.payload);
    SeenSnoc(items, item, seen);
    NewFirst(items, item, seen);
    AllocatedSnoc(firsts, tags, item, id, base, numbered);
    IdsSnoc(tags, tag);
    UsedGrows(used, seen, id, item.nodeId);
  }

  lemma NewFirst<T>(items: seq<Item<T>>, item: Item<T>, seen: set<string>)
    requires Seen(items, seen) && item.nodeId != "" && item.nodeId !in seen
    ensures Firsts(items + [item]) == Firsts(items) + [item]
  {
    FirstsSnoc(items, item);
  }

  lemma UsedGrows(used: map<string, string>, seen: set<string>, id: string, nodeId: string)
    requires used.Values <= seen
    ensures used[id := nodeId].Keys == used.Keys + {id} && used[id := nodeId].Values <= seen + {nodeId}
  {
  }

  lemma IdsSnoc<T>(tags: seq<Tag<T>>, tag: Tag<T>)
    ensures Ids(tags + [tag]) == Ids(tags) + {tag.id}
  {
    var all := tags + [tag];
    assert forall i | 0 <= i < |tags| :: all[i] == tags[i];
    assert all[|tags|] == tag;
  }

  lemma AllocatedSnoc<T>(firsts: seq<Item<T>>, tags: seq<Tag<T>>, item: Item<T>, id: string,
                         base: Item<T> -> string, numbered: Numbering)
    requires Allocated(firsts, tags, base, numbered)
    requires Chosen(Ids(tags), base(item), numbered(base(item), item.nodeId), id)
    ensures Allocated(firsts + [item], tags + [Tag(id, item.nodeId, item.payload)], base, numbered)
  {
    var fs, all := firsts + [item], tags + [Tag(id, item.nodeId, item.payload)];
    forall i | 0 <= i < |all|
      ensures all[i].nodeId == fs[i].nodeId && all[i].payload == fs[i].payload
      ensures Chosen(Ids(all[..i]), base(fs[i]), numbered(base(fs[i]), fs[i].nodeId), all[i].id)
    {
      assert all[..i] == tags[..i];
      if i == |tags| {
        assert tags[..i] == tags;
      } else {
        assert all[i] == tags[i] && fs[i] == firsts[i];
      }
    }
  }

  lemma SkippedCount<T>(items: seq<Item<T>>, item: Item<T>, base: Item<T> -> string, tags: seq<Tag<T>>,
                        skipped: nat, renamed: nat)
    requires Counted(items, base, tags, skipped, renamed) && (item.nodeId == "" || Known(items, item.nodeId))
    ensures Counted(items + [item], base, tags, if item.nodeId == "" then skipped else skipped + 1, renamed)
  {
    FirstsSnoc(items, item);
    assert (items + [item])[..|items|] == items;
  }

  lemma TaggedCount<T>(items: seq<Item<T>>, item: Item<T>, id: string, base: Item<T> -> string, tags: seq<Tag<T>>,
                       skipped: nat, renamed: nat)
    requires Counted(items, base, tags, skipped, renamed) && item.nodeId != "" && !Known(items, item.nodeId)
    ensures Counted(items + [item], base, tags + [Tag(id, item.nodeId, item.payload)], skipped,
                    renamed + if base(item) in Ids(tags) then 1 else 0)
  {
    FirstsSnoc(items, item);
    assert (items + [item])[..|items|] == items;
    var fs, all := Firsts(items) + [item], tags + [Tag(id, item.nodeId, item.payload)];
    assert fs[..|tags|] == Firsts(items) && all[..|tags|] == tags;
  }

  // ---- what an allocation guarantees ----------------------------------------------------

  /** Ids are pairwise distinct. */
  lemma AllocatedIdsDiffer<T>(firsts: seq<Item<T>>, tags: seq<Tag<T>>, base: Item<T> -> string, numbered: Numbering,
                              i: nat, j: nat)
    requires Allocated(firsts, tags, base, numbered) && i < j < |tags|
    ensures tags[i].id != tags[j].id
  {
    assert tags[..j][i].id in Ids(tags[..j]);
  }

  /** Node ids are pairwise distinct, none is empty, and every node id of the input is there. */
  lemma {:induction false} FirstsAreTheNodes<T>(items: seq<Item<T>>)
    ensures forall i, j | 0 <= i < j < |Firsts(items)| :: Firsts(items)[i].nodeId != Firsts(items)[j].nodeId
    ensures forall s :: Known(Firsts(items), s) <==> s != "" && Known(items, s)
  {
    if items != [] {
      var init, last := items[..|items| - 1], items[|items| - 1];
      FirstsAreTheNodes(init);
      assert items == init + [last];
      KnownSnoc(init, last);
      KnownSnoc(Firsts(init), last);
      assert forall i | 0 <= i < |Firsts(init)| :: Known(Firsts(init), Firsts(init)[i].nodeId);
    }
  }

  /** Items keep their order: later ones only add to the end. */
  lemma {:induction false} FirstsGrow<T>(a: seq<Item<T>>, b: seq<Item<T>>)
    ensures Firsts(a) <= Firsts(a + b)
  {
    if b == [] {
      assert a + b == a;
    } else {
      var n := |b| - 1;
      FirstsGrow(a, b[..n]);
      assert (a + b)[..|a + b| - 1] == a + b[..n];
    }
  }

  /** Each kept item is the first of its node id in the input. */
  lemma {:induction false} FirstsComeFirst<T>(items: seq<Item<T>>, f: Item<T>)
    requires f in Firsts(items)
    ensures exists i | 0 <= i < |items| :: items[i] == f && !Known(items[..i], f.nodeId)
  {
    if items != [] {
      var n := |items| - 1;
      if f in Firsts(items[..n]) {
        FirstsComeFirst(items[..n], f);
        var i :| 0 <= i < n && items[..n][i] == f && !Known(items[..n][..i], f.nodeId);
        assert items[..n][..i] == items[..i];
        assert items[i] == f;
      } else {
        assert items[n] == f;
      }
    }
  }

  /** The allocation is fully determined by the input. */
  lemma {:induction false} AllocationIsUnique<T>(firsts: seq<Item<T>>, s: seq<Tag<T>>, t: seq<Tag<T>>,
                                                 base: Item<T> -> string, numbered: Numbering, n: nat)
    requires Allocated(firsts, s, base, numbered) && Allocated(firsts, t, base, numbered) && n <= |firsts|
    ensures s[..n] == t[..n]
  {
    if n > 0 {
      var i := n - 1;
      AllocationIsUnique(firsts, s, t, base, numbered, i);
      ChosenIsUnique(Ids(s[..i]), base(firsts[i]), numbered(base(firsts[i]), firsts[i].nodeId), s[i].id, t[i].id);
      assert s[..n] == s[..i] + [s[i]] && t[..n] == t[..i] + [t[i]];
    }
  }

  lemma ChosenIsUnique(used: set<string>, base: string, cand: nat -> string, x: string, y: string)
    requires Chosen(used, base, cand, x) && Chosen(used, base, cand, y)
    ensures x == y
  {
    if base in used {
      var j: nat :| FirstFree(used, cand, j) && x == cand(j);
      var k: nat :| FirstFree(used, cand, k) && y == cand(k);
      assert !(j < k) && !(k < j);
    }
  }

  lemma {:induction false} BaseIsFree<T>(firsts: seq<Item<T>>, tags: seq<Tag<T>>,
                                         base: Item<T> -> string, numbered: Numbering, i: nat)
    requires Allocated(firsts, tags, base, numbered) && i < |tags|
    requires forall p, q | 0 <= p < q < |firsts| :: base(firsts[p]) != base(firsts[q])
    ensures base(firsts[i]) !in Ids(tags[..i]) && tags[i].id == base(firsts[i])
    decreases i
  {
    forall j | 0 <= j < i ensures tags[j].id != base(firsts[i]) {
      BaseIsFree(firsts, tags, base, numbered, j);
    }
  }

  lemma {:induction false} NothingRenamed<T>(firsts: seq<Item<T>>, tags: seq<Tag<T>>, base: Item<T> -> string)
    requires |firsts| == |tags|
    requires forall i | 0 <= i < |tags| :: base(firsts[i]) !in Ids(tags[..i])
    ensures Renamed(firsts, tags, base) == 0
  {
    if tags != [] {
      var n := |tags| - 1;
      assert forall i | 0 <= i < n :: tags[..n][..i] == tags[..i];
      NothingRenamed(firsts[..n], tags[..n], base);
    }
  }

  /** Base and chosen id of each tag. */
  function BaseAndId<T>(firsts: seq<Item<T>>, tags: seq<Tag<T>>, base: Item<T> -> string): (r: seq<(string, string)>)
    requires |tags| == |firsts|
    ensures |r| == |tags|
  {
    seq(|tags|, i requires 0 <= i < |tags| == |firsts| => (base(firsts[i]), tags[i].id))
  }

  lemma ChosenDiffers(used: set<string>, base: string, cand: nat -> string, id: string)
    requires Chosen(used, base, cand, id)
    ensures id != base <==> base in used
  {
  }

  /** Renamed are exactly the tags whose id is not their base id. */
  lemma {:induction false} RenamedCounts<T>(firsts: seq<Item<T>>, tags: seq<Tag<T>>, base: Item<T> -> string, numbered: Numbering)
    requires Allocated(firsts, tags, base, numbered)
    ensures Renamed(firsts, tags, base) == |Hits(BaseAndId(firsts, tags, base), (p: (string, string)) => p.0 != p.1)|
  {
    if tags != [] {
      var n := |tags| - 1;
      assert Allocated(firsts[..n], tags[..n], base, numbered) by {
        forall i | 0 <= i < n ensures tags[..n][..i] == tags[..i] {}
      }
      RenamedCounts(firsts[..n], tags[..n], base, numbered);
      ChosenDiffers(Ids(tags[..n]), base(firsts[n]), numbered(base(firsts[n]), firsts[n].nodeId), tags[n].id);
      HitsSnoc(BaseAndId(firsts[..n], tags[..n], base), (base(firsts[n]), tags[n].id), (p: (string, string)) => p.0 != p.1);
      assert BaseAndId(firsts, tags, base) == BaseAndId(firsts[..n], tags[..n], base) + [(base(firsts[n]), tags[n].id)];
    }
  }

  /** Items without a node id. */
  lemma {:induction false} WithoutNodeCounts<T>(items: seq<Item<T>>)
    ensures WithoutNode(items) == |Hits(items, (item: Item<T>) => item.nodeId == "")|
  {
    if items != [] {
      var n := |items| - 1;
      WithoutNodeCounts(items[..n]);
      HitsSnoc(items[..n], items[n], (item: Item<T>) => item.nodeId == "");
      assert items == items[..n] + [items[n]];
    }
  }

  /** Without collisions of base ids nothing is renamed. */
  lemma DistinctBasesAreKept<T>(firsts: seq<Item<T>>, tags: seq<Tag<T>>,
                                base: Item<T> -> string, numbered: Numbering)
    requires Allocated(firsts, tags, base, numbered)
    requires forall i, j | 0 <= i < j < |firsts| :: base(firsts[i]) != base(firsts[j])
    ensures Renamed(firsts, tags, base) == 0 && forall i | 0 <= i < |tags| :: tags[i].id == base(firsts[i])
  {
    forall i | 0 <= i < |tags| ensures base(firsts[i]) !in Ids(tags[..i]) && tags[i].id == base(firsts[i]) {
      BaseIsFree(firsts, tags, base, numbered, i);
    }
    NothingRenamed(firsts, tags, base);
  }
}
