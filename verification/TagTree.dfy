/**
 The folder tree of the admin console: normalised paths, a tree built from a list of tag
 values one at a time, and the leaves collected from it.
 */
module TagTree {
  import opened Wrappers
  import opened Text

  // ---- paths ---------------------------------------------------------------

  function BackslashToSlash(s: string): string {
    if s == "" then ""
    else BackslashToSlash(s[..|s| - 1]) + [if s[|s| - 1] == '\\' then '/' else s[|s| - 1]]
  }

  /** Every run of dots becomes one slash. */
  function DotsToSlash(s: string): string {
    if s == "" then ""
    else
      var init, c := s[..|s| - 1], s[|s| - 1];
      if c != '.' then DotsToSlash(init) + [c]
      else if init != "" && init[|init| - 1] == '.' then DotsToSlash(init)
      else DotsToSlash(init) + ['/']
  }

  /** JavaScript's trim as a value. */
  function Trim(): string -> string {
    (s: string) => TrimSpace(s, JS_SPACE)
  }

  function TrimAll(parts: seq<string>, trim: string -> string): seq<string> {
    if parts == [] then [] else [trim(parts[0])] + TrimAll(parts[1..], trim)
  }

  function NonEmpty(parts: seq<string>): seq<string> {
    if parts == [] then []
    else if parts[0] == "" then NonEmpty(parts[1..])
    else [parts[0]] + NonEmpty(parts[1..])
  }

  function Parts(s: string, trim: string -> string): seq<string> {
    NonEmpty(TrimAll(Split(s, '/'), trim))
  }

  /** The folder names a path stands for. */
  function Segs(p: string): seq<string> {
    Parts(DotsToSlash(BackslashToSlash(p)), Trim())
  }

  function NormalizePath(p: string): string {
    Join(Segs(p), '/')
  }

  predicate Plain(c: char) {
    c != '/' && c != '.' && c != '\\'
  }

  /** A folder name: not empty, nothing to trim, no separator of any kind in it. */
  ghost predicate IsSegment(s: string) {
    s != "" && Trimmed(s, JS_SPACE) && forall i | 0 <= i < |s| :: Plain(s[i])
  }

  ghost predicate AreSegments(parts: seq<string>) {
    forall i | 0 <= i < |parts| :: IsSegment(parts[i])
  }

  lemma {:induction false} ReplacementsRemove(s: string)
    ensures '\\' !in BackslashToSlash(s)
    ensures '.' !in DotsToSlash(s) && ('\\' !in s ==> '\\' !in DotsToSlash(s))
  {
    if s != "" {
      var init := s[..|s| - 1];
      ReplacementsRemove(init);
      assert '\\' !in s ==> '\\' !in init && s[|s| - 1] != '\\';
    }
  }

  lemma {:induction false} ReplacementsFix(s: string)
    requires '.' !in s && '\\' !in s
    ensures BackslashToSlash(s) == s && DotsToSlash(s) == s
  {
    if s != "" {
      var init := s[..|s| - 1];
      assert s == init + [s[|s| - 1]];
      ReplacementsFix(init);
    }
  }

  lemma TrimKeepsPlain(s: string)
    requires forall i | 0 <= i < |s| :: Plain(s[i])
    ensures var t := Trim()(s); Trimmed(t, JS_SPACE) && forall i | 0 <= i < |t| :: Plain(t[i])
  {
    FixedIffTrimmed(s, JS_SPACE);
  }

  lemma {:induction false} AllAre(parts: seq<string>, trim: string -> string, ok: string -> bool)
    requires forall i | 0 <= i < |parts| :: trim(parts[i]) == "" || ok(trim(parts[i]))
    ensures forall s | s in NonEmpty(TrimAll(parts, trim)) :: ok(s)
  {
    if parts != [] {
      AllAre(parts[1..], trim, ok);
    }
  }

  lemma {:induction false} FixedPartsAreKept(parts: seq<string>, trim: string -> string)
    requires forall i | 0 <= i < |parts| :: parts[i] != "" && trim(parts[i]) == parts[i]
    ensures NonEmpty(TrimAll(parts, trim)) == parts
  {
    if parts != [] {
      FixedPartsAreKept(parts[1..], trim);
    }
  }

  lemma SegmentsAreFixed(parts: seq<string>)
    requires AreSegments(parts)
    ensures forall i | 0 <= i < |parts| :: parts[i] != "" && Trim()(parts[i]) == parts[i]
  {
    forall i | 0 <= i < |parts| ensures parts[i] != "" && Trim()(parts[i]) == parts[i] {
      assert IsSegment(parts[i]);
      FixedIffTrimmed(parts[i], JS_SPACE);
    }
  }

  lemma SplitPartsArePlain(d: string, parts: seq<string>)
    requires parts == Split(d, '/') && '.' !in d && '\\' !in d
    ensures forall q, i | 0 <= q < |parts| && 0 <= i < |parts[q]| :: Plain(parts[q][i])
  {
    SplitPartsAvoid(d, '/');
    forall q, i | 0 <= q < |parts| && 0 <= i < |parts[q]| ensures Plain(parts[q][i]) {
      assert parts[q] in parts && parts[q][i] in parts[q];
    }
  }

  lemma PlainPartsBecomeSegments(parts: seq<string>)
    requires forall q, i | 0 <= q < |parts| && 0 <= i < |parts[q]| :: Plain(parts[q][i])
    ensures AreSegments(NonEmpty(TrimAll(parts, Trim())))
  {
    forall q | 0 <= q < |parts| ensures Trim()(parts[q]) == "" || IsSegment(Trim()(parts[q])) {
      TrimKeepsPlain(parts[q]);
    }
    AllAre(parts, Trim(), s => IsSegment(s));
  }

  lemma SegsAreSegments(p: string)
    ensures AreSegments(Segs(p))
  {
    var b := BackslashToSlash(p);
    ReplacementsRemove(p);
    ReplacementsRemove(b);
    SplitPartsArePlain(DotsToSlash(b), Split(DotsToSlash(b), '/'));
    PlainPartsBecomeSegments(Split(DotsToSlash(b), '/'));
  }

  lemma {:induction false} JoinIsClean(parts: seq<string>)
    requires AreSegments(parts)
    ensures '.' !in Join(parts, '/') && '\\' !in Join(parts, '/')
    ensures Join(parts, '/') == "" <==> parts == []
  {
    if parts != [] {
      assert IsSegment(parts[0]);
      JoinIsClean(parts[1..]);
    }
  }

  /** Segments joined with slashes are found again, by a plain split and by a second normalisation. */
  lemma SegmentsComeBack(parts: seq<string>)
    requires AreSegments(parts)
    ensures parts != [] ==> Split(Join(parts, '/'), '/') == parts
    ensures Segs(Join(parts, '/')) == parts
  {
    JoinIsClean(parts);
    ReplacementsFix(Join(parts, '/'));
    SegmentsAreFixed(parts);
    FixedPartsAreKept(parts, Trim());
    if parts != [] {
      forall s | s in parts ensures '/' !in s {
        var i :| 0 <= i < |parts| && parts[i] == s;
        assert IsSegment(parts[i]);
      }
      SplitOfJoin(parts, '/');
    }
  }

  /** Normalising twice is normalising once. */
  lemma NormalizeIsIdempotent(p: string)
    ensures NormalizePath(NormalizePath(p)) == NormalizePath(p)
  {
    SegsAreSegments(p);
    SegmentsComeBack(Segs(p));
  }

  // ---- what a path means ---------------------------------------------------------

  predicate IsSeparator(c: char) {
    c == '/' || c == '.' || c == '\\'
  }

  function EachToSlash(s: string): string {
    if s == "" then "" else EachToSlash(s[..|s| - 1]) + [if IsSeparator(s[|s| - 1]) then '/' else s[|s| - 1]]
  }

  lemma TrimAllCons(head: string, rest: seq<string>, trim: string -> string)
    ensures TrimAll([head] + rest, trim) == [trim(head)] + TrimAll(rest, trim)
  {
    assert ([head] + rest)[1..] == rest;
  }

  lemma {:induction false} TrimAllOfConcat(a: seq<string>, b: seq<string>, trim: string -> string)
    ensures TrimAll(a + b, trim) == TrimAll(a, trim) + TrimAll(b, trim)
    decreases |a|
  {
    if a == [] {
      assert a + b == b;
    } else {
      var head, rest := HeadAndRest(a, b);
      TrimAllCons(head, rest, trim);
      TrimAllCons(head, rest + b, trim);
      TrimAllOfConcat(rest, b, trim);
    }
  }

  lemma NonEmptyCons(head: string, rest: seq<string>)
    ensures NonEmpty([head] + rest) == (if head == "" then [] else [head]) + NonEmpty(rest)
  {
    assert ([head] + rest)[1..] == rest;
  }

  lemma {:induction false} NonEmptyOfConcat(a: seq<string>, b: seq<string>)
    ensures NonEmpty(a + b) == NonEmpty(a) + NonEmpty(b)
    decreases |a|
  {
    if a == [] {
      assert a + b == b;
    } else {
      var head, rest := HeadAndRest(a, b);
      NonEmptyCons(head, rest);
      NonEmptyCons(head, rest + b);
      NonEmptyOfConcat(rest, b);
    }
  }

  lemma PartsAtSlash(x: string, y: string, trim: string -> string)
    ensures Parts(x + ['/'] + y, trim) == Parts(x, trim) + Parts(y, trim)
  {
    SplitAtSeparator(x, '/', y);
    TrimAllOfConcat(Split(x, '/'), Split(y, '/'), trim);
    NonEmptyOfConcat(TrimAll(Split(x, '/'), trim), TrimAll(Split(y, '/'), trim));
  }

  lemma PartsOfDoubleSlash(z: string, t: string, trim: string -> string)
    requires trim("") == ""
    ensures Parts(z + ['/'] + (['/'] + t), trim) == Parts(z + ['/'] + t, trim)
  {
    PartsAtSlash(z, ['/'] + t, trim);
    PartsAtSlash("", t, trim);
    assert "" + ['/'] + t == ['/'] + t;
    PartsAtSlash(z, t, trim);
    assert Parts("", trim) == [];
  }

  lemma EachSnoc(init: string, c: char)
    ensures EachToSlash(init + [c]) == EachToSlash(init) + [if IsSeparator(c) then '/' else c]
    ensures BackslashToSlash(init + [c]) == BackslashToSlash(init) + [if c == '\\' then '/' else c]
    ensures DotsToSlash(init + [c]) ==
            if c != '.' then DotsToSlash(init) + [c]
            else if init != "" && init[|init| - 1] == '.' then DotsToSlash(init)
            else DotsToSlash(init) + ['/']
  {
    assert (init + [c])[..|init|] == init;
  }

  lemma MoveOver(u: string, d: char, t: string)
    ensures u + [d] + t == u + ([d] + t)
  {
  }

  lemma DotAfterDot(z: string)
    ensures EachToSlash(z + ['.']) == EachToSlash(z) + ['/']
    ensures EachToSlash(z + ['.'] + ['.']) == EachToSlash(z) + ['/'] + ['/']
  {
    EachSnoc(z, '.');
    EachSnoc(z + ['.'], '.');
  }

  /** A further dot of a run adds a slash next to a slash. */
  lemma RepeatedDot(z: string, t: string, trim: string -> string)
    requires trim("") == ""
    ensures Parts(EachToSlash(z + ['.'] + ['.']) + t, trim) == Parts(EachToSlash(z + ['.']) + t, trim)
  {
    DotAfterDot(z);
    MoveOver(EachToSlash(z) + ['/'], '/', t);
    PartsOfDoubleSlash(EachToSlash(z), t, trim);
  }

  /** Collapsing runs of dots makes no difference to the segments, whatever follows. */
  lemma {:induction false} RunsDoNotMatter(s: string, t: string, trim: string -> string)
    requires '\\' !in s && trim("") == ""
    ensures Parts(DotsToSlash(s) + t, trim) == Parts(EachToSlash(s) + t, trim)
  {
    if s != "" {
      var init, c := s[..|s| - 1], s[|s| - 1];
      assert s == init + [c];
      EachSnoc(init, c);
      if c == '.' && init != "" && init[|init| - 1] == '.' {
        RunsDoNotMatter(init, t, trim);
        var z := init[..|init| - 1];
        assert init == z + ['.'];
        RepeatedDot(z, t, trim);
      } else {
        var d := if IsSeparator(c) then '/' else c;
        RunsDoNotMatter(init, [d] + t, trim);
        MoveOver(EachToSlash(init), d, t);
        MoveOver(DotsToSlash(init), d, t);
      }
    }
  }

  lemma {:induction false} BackslashThenEach(s: string)
    ensures EachToSlash(BackslashToSlash(s)) == EachToSlash(s)
  {
    if s != "" {
      var init, c := s[..|s| - 1], s[|s| - 1];
      assert s == init + [c];
      BackslashThenEach(init);
      EachSnoc(init, c);
      EachSnoc(BackslashToSlash(init), if c == '\\' then '/' else c);
    }
  }

  lemma NothingToTrim()
    ensures Trim()("") == ""
  {
  }

  lemma SegsAreParts(p: string)
    ensures Segs(p) == Parts(EachToSlash(p), Trim())
  {
    var b := BackslashToSlash(p);
    ReplacementsRemove(p);
    NothingToTrim();
    RunsDoNotMatter(b, "", Trim());
    assert DotsToSlash(b) + "" == DotsToSlash(b) && EachToSlash(b) + "" == EachToSlash(b);
    BackslashThenEach(p);
  }

  lemma {:induction false} EachOfConcat(a: string, b: string)
    ensures EachToSlash(a + b) == EachToSlash(a) + EachToSlash(b)
  {
    if b == "" {
      assert a + b == a;
    } else {
      var init := b[..|b| - 1];
      EachOfConcat(a, init);
      assert (a + b)[..|a + b| - 1] == a + init;
    }
  }

  /** Slashes, backslashes and dots all separate: a path's segments are those before and after any of them. */
  lemma SegsAtSeparator(a: string, c: char, b: string)
    requires IsSeparator(c)
    ensures Segs(a + [c] + b) == Segs(a) + Segs(b)
  {
    SegsAreParts(a);
    SegsAreParts(b);
    SegsAreParts(a + [c] + b);
    EachOfConcat(a + [c], b);
    EachSnoc(a, c);
    PartsAtSlash(EachToSlash(a), EachToSlash(b), Trim());
  }

  /** Without separators the path is one segment, trimmed, or none. */
  lemma SegsOfName(s: string)
    requires forall i | 0 <= i < |s| :: Plain(s[i])
    ensures Segs(s) == if Trim()(s) == "" then [] else [Trim()(s)]
  {
    ReplacementsFix(s);
    OnePart(s, Trim());
  }

  lemma OnePart(s: string, trim: string -> string)
    requires '/' !in s
    ensures Parts(s, trim) == if trim(s) == "" then [] else [trim(s)]
  {
    SplitOfConcat(s, '/', "");
    assert TrimAll([s], trim) == [trim(s)];
    assert [trim(s)][1..] == [] && NonEmpty([]) == [];
  }

  // ---- the tree ---------------------------------------------------------------

  datatype TagValue<T> = TagValue(id: string, path: string, nodeId: string, value: T)

  datatype Node<T> = Folder(key: string, name: string, children: seq<Node<T>>) | Leaf(key: string, tv: T)

  predicate StartsWithFold(s: string, prefix: string) {
    |prefix| <= |s| && forall i | 0 <= i < |prefix| :: LowerChar(s[i]) == prefix[i]
  }

  /** The name in a namespace URI of the form nsu=http://Name;… */
  function PathFromNodeId(nodeId: string): string {
    if StartsWithFold(nodeId, "nsu=http://") then Split(nodeId[11..], ';')[0]
    else if StartsWithFold(nodeId, "nsu=https://") then Split(nodeId[12..], ';')[0]
    else ""
  }

  /** Where a tag value belongs: its path, or else the name in its node id. */
  function Place<T>(tv: TagValue<T>): seq<string> {
    if Segs(tv.path) != [] then Segs(tv.path) else Segs(PathFromNodeId(tv.nodeId))
  }

  function LeafOf<T>(tv: TagValue<T>): Node<TagValue<T>> {
    Leaf("tag:" + tv.id, tv)
  }

  function FindFolder<T>(nodes: seq<Node<T>>, name: string): (r: Option<nat>)
    ensures r.Some? ==> r.value < |nodes| && nodes[r.value].Folder? && nodes[r.value].name == name
    ensures r.None? ==> forall i | 0 <= i < |nodes| :: !(nodes[i].Folder? && nodes[i].name == name)
  {
    if nodes == [] then None
    else if nodes[0].Folder? && nodes[0].name == name then Some(0)
    else match FindFolder(nodes[1..], name) case None => None case Some(i) => Some(i + 1)
  }

  function Under(acc: string, seg: string): string {
    if acc == "" then seg else acc + "/" + seg
  }

  /** Walking down from a folder with key `acc`, making missing folders, and adding the leaf at the end. */
  function Insert<T>(nodes: seq<Node<T>>, segs: seq<string>, acc: string, leaf: Node<T>): seq<Node<T>>
    decreases |segs|
  {
    if segs == [] then nodes + [leaf]
    else
      var key := Under(acc, segs[0]);
      match FindFolder(nodes, segs[0])
      case None => nodes + [Folder(key, segs[0], Insert([], segs[1..], key, leaf))]
      case Some(i) =>
        nodes[i := Folder(nodes[i].key, segs[0], Insert(nodes[i].children, segs[1..], key, leaf))]
  }

  /** How tag values are placed. */
  type Placing<!T> = TagValue<T> -> seq<string>

  function ByPath<T>(): Placing<T> {
    (tv: TagValue<T>) => Place(tv)
  }

  /** The tag values inserted one after another. */
  function Built<T>(tvs: seq<TagValue<T>>, place: Placing<T>): seq<Node<TagValue<T>>> {
    if tvs == [] then []
    else
      var tv := tvs[|tvs| - 1];
      Insert(Built(tvs[..|tvs| - 1], place), place(tv), "", LeafOf(tv))
  }

  lemma BuiltNext<T>(tvs: seq<TagValue<T>>, place: Placing<T>, c: nat)
    requires c < |tvs|
    ensures Built(tvs[..c + 1], place) == Insert(Built(tvs[..c], place), place(tvs[c]), "", LeafOf(tvs[c]))
  {
    assert tvs[..c + 1][..c] == tvs[..c];
  }

  method FolderSegments<T>(tv: TagValue<T>) returns (segs: seq<string>)
    ensures segs == Place(tv) == ByPath()(tv)
  {
    var path := NormalizePath(tv.path);
    if path == "" {
      path := NormalizePath(PathFromNodeId(tv.nodeId));
    }
    PathIsPlace(tv);
    segs := if path == "" then [] else Split(path, '/');
  }

  lemma PathIsPlace<T>(tv: TagValue<T>)
    ensures var own := NormalizePath(tv.path);
            var path := if own == "" then NormalizePath(PathFromNodeId(tv.nodeId)) else own;
            (if path == "" then [] else Split(path, '/')) == Place(tv)
  {
    NormalizedSplits(tv.path);
    NormalizedSplits(PathFromNodeId(tv.nodeId));
  }

  lemma NormalizedSplits(p: string)
    ensures NormalizePath(p) == "" <==> Segs(p) == []
    ensures NormalizePath(p) != "" ==> Split(NormalizePath(p), '/') == Segs(p)
  {
    SegsAreSegments(p);
    JoinIsClean(Segs(p));
    SegmentsComeBack(Segs(p));
  }

  // ---- where the leaves are ------------------------------------------------------

  function LeavesHere<T>(nodes: seq<Node<T>>): seq<T> {
    if nodes == [] then []
    else
      var n := nodes[|nodes| - 1];
      LeavesHere(nodes[..|nodes| - 1]) + if n.Leaf? then [n.tv] else []
  }

  /** The leaves found by following folder names, in order. */
  function LeavesAt<T>(nodes: seq<Node<T>>, path: seq<string>): seq<T>
    decreases |path|
  {
    if path == [] then LeavesHere(nodes)
    else match FindFolder(nodes, path[0]) case None => [] case Some(i) => LeavesAt(nodes[i].children, path[1..])
  }

  lemma {:induction false} LeavesHereUpdate<T>(nodes: seq<Node<T>>, i: nat, f: Node<T>)
    requires i < |nodes| && nodes[i].Folder? && f.Folder?
    ensures LeavesHere(nodes[i := f]) == LeavesHere(nodes)
  {
    var n := |nodes| - 1;
    if i < n {
      LeavesHereUpdate(nodes[..n], i, f);
      assert nodes[i := f][..n] == nodes[..n][i := f];
    } else {
      assert nodes[i := f][..n] == nodes[..n];
    }
  }

  lemma LeavesHereSnoc<T>(nodes: seq<Node<T>>, n: Node<T>)
    ensures LeavesHere(nodes + [n]) == if n.Leaf? then LeavesHere(nodes) + [n.tv] else LeavesHere(nodes)
  {
    assert (nodes + [n])[..|nodes|] == nodes;
  }

  lemma {:induction false} FindAfterUpdate<T>(nodes: seq<Node<T>>, i: nat, f: Node<T>, name: string)
    requires i < |nodes| && nodes[i].Folder? && f.Folder? && f.name == nodes[i].name
    ensures FindFolder(nodes[i := f], name) == FindFolder(nodes, name)
  {
    if i > 0 {
      FindAfterUpdate(nodes[1..], i - 1, f, name);
      assert nodes[i := f][1..] == nodes[1..][i - 1 := f];
    } else {
      assert nodes[i := f][1..] == nodes[1..];
    }
  }

  lemma {:induction false} FindAfterAppend<T>(nodes: seq<Node<T>>, n: Node<T>, name: string)
    ensures FindFolder(nodes + [n], name) ==
            if FindFolder(nodes, name).Some? then FindFolder(nodes, name)
            else if n.Folder? && n.name == name then Some(|nodes|)
            else None
  {
    if nodes != [] {
      FindAfterAppend(nodes[1..], n, name);
      assert (nodes + [n])[1..] == nodes[1..] + [n];
    }
  }

  /** Inserting a leaf adds it at the end of its own place and nowhere else. */
  lemma {:induction false} InsertAddsOneLeaf<T>(nodes: seq<Node<T>>, segs: seq<string>, acc: string, leaf: Node<T>,
                                                path: seq<string>)
    requires leaf.Leaf?
    ensures LeavesAt(Insert(nodes, segs, acc, leaf), path) ==
            if path == segs then LeavesAt(nodes, path) + [leaf.tv] else LeavesAt(nodes, path)
    decreases |segs|
  {
    if segs == [] {
      LeavesHereSnoc(nodes, leaf);
      if path != [] {
        FindAfterAppend(nodes, leaf, path[0]);
      }
    } else {
      var key := Under(acc, segs[0]);
      var found := FindFolder(nodes, segs[0]);
      var children := if found.None? then [] else nodes[found.value].children;
      if path == [] {
        if found.Some? {
          LeavesHereUpdate(nodes, found.value, Insert(nodes, segs, acc, leaf)[found.value]);
        } else {
          LeavesHereSnoc(nodes, Folder(key, segs[0], Insert([], segs[1..], key, leaf)));
        }
      } else {
        InsertAddsOneLeaf(children, segs[1..], key, leaf, path[1..]);
        NoLeaves<T>(path[1..]);
        if found.Some? {
          FindAfterUpdate(nodes, found.value, Insert(nodes, segs, acc, leaf)[found.value], path[0]);
        } else {
          FindAfterAppend(nodes, Folder(key, segs[0], Insert([], segs[1..], key, leaf)), path[0]);
        }
        assert path == segs <==> path[0] == segs[0] && path[1..] == segs[1..] by {
          assert path == [path[0]] + path[1..] && segs == [segs[0]] + segs[1..];
        }
      }
    }
  }

  lemma NoLeaves<T>(path: seq<string>)
    ensures LeavesAt<T>([], path) == []
  {
  }

  function PlacedAt<T>(tvs: seq<TagValue<T>>, place: Placing<T>, path: seq<string>): seq<TagValue<T>> {
    if tvs == [] then []
    else
      var tv := tvs[|tvs| - 1];
      PlacedAt(tvs[..|tvs| - 1], place, path) + if place(tv) == path then [tv] else []
  }

  lemma {:induction false} PlacedInOrder<T>(a: seq<TagValue<T>>, b: seq<TagValue<T>>, place: Placing<T>, path: seq<string>)
    ensures PlacedAt(a + b, place, path) == PlacedAt(a, place, path) + PlacedAt(b, place, path)
  {
    if b == [] {
      assert a + b == a;
    } else {
      var n := |b| - 1;
      PlacedInOrder(a, b[..n], place, path);
      assert (a + b)[..|a + b| - 1] == a + b[..n];
    }
  }

  /** Every folder holds exactly the tag values that belong there, in input order. */
  lemma {:induction false} LeavesAreInPlace<T>(tvs: seq<TagValue<T>>, place: Placing<T>, path: seq<string>)
    ensures LeavesAt(Built(tvs, place), path) == PlacedAt(tvs, place, path)
  {
    if tvs == [] {
      NoLeaves<TagValue<T>>(path);
    } else {
      var tv := tvs[|tvs| - 1];
      LeavesAreInPlace(tvs[..|tvs| - 1], place, path);
      InsertAddsOneLeaf(Built(tvs[..|tvs| - 1], place), place(tv), "", LeafOf(tv), path);
    }
  }

  // ---- shape of the tree -----------------------------------------------------------

  /** Folder names among siblings differ, and a folder's key is its path. */
  ghost predicate Shaped<T>(nodes: seq<Node<T>>, acc: string)
    decreases nodes
  {
    && (forall i, j | 0 <= i < j < |nodes| && nodes[i].Folder? && nodes[j].Folder? :: nodes[i].name != nodes[j].name)
    && (forall i | 0 <= i < |nodes| && nodes[i].Folder? ::
          nodes[i].key == Under(acc, nodes[i].name) && Shaped(nodes[i].children, nodes[i].key))
  }

  lemma {:induction false} InsertKeepsShape<T>(nodes: seq<Node<T>>, segs: seq<string>, acc: string, leaf: Node<T>)
    requires leaf.Leaf? && Shaped(nodes, acc)
    ensures Shaped(Insert(nodes, segs, acc, leaf), acc)
    decreases |segs|
  {
    if segs != [] {
      var key := Under(acc, segs[0]);
      var found := FindFolder(nodes, segs[0]);
      InsertKeepsShape(if found.None? then [] else nodes[found.value].children, segs[1..], key, leaf);
    }
  }

  lemma {:induction false} TreesAreShaped<T>(tvs: seq<TagValue<T>>, place: Placing<T>)
    ensures Shaped(Built(tvs, place), "")
  {
    if tvs != [] {
      var tv := tvs[|tvs| - 1];
      TreesAreShaped(tvs[..|tvs| - 1], place);
      InsertKeepsShape(Built(tvs[..|tvs| - 1], place), place(tv), "", LeafOf(tv));
    }
  }

  // ---- conservation ------------------------------------------------------------------

  function CollectLeaves<T>(node: Node<T>): seq<T>
    decreases node
  {
    match node
    case Leaf(_, tv) => [tv]
    case Folder(_, _, children) => CollectAll(children)
  }

  function CollectAll<T>(nodes: seq<Node<T>>): seq<T>
    decreases nodes
  {
    if nodes == [] then [] else CollectLeaves(nodes[0]) + CollectAll(nodes[1..])
  }

  lemma {:induction false} CollectAppend<T>(nodes: seq<Node<T>>, n: Node<T>)
    ensures CollectAll(nodes + [n]) == CollectAll(nodes) + CollectLeaves(n)
    decreases |nodes|
  {
    if nodes == [] {
      assert nodes + [n] == [n] && CollectLeaves(n) + [] == CollectLeaves(n);
    } else {
      var head, rest := HeadAndRest(nodes, [n]);
      CollectCons(head, rest);
      CollectCons(head, rest + [n]);
      CollectAppend(rest, n);
    }
  }

  lemma CollectCons<T>(n: Node<T>, rest: seq<Node<T>>)
    ensures CollectAll([n] + rest) == CollectLeaves(n) + CollectAll(rest)
  {
    assert ([n] + rest)[1..] == rest;
  }

  lemma {:induction false} CollectSplit<T>(a: seq<Node<T>>, b: seq<Node<T>>)
    ensures CollectAll(a + b) == CollectAll(a) + CollectAll(b)
    decreases |a|
  {
    if a == [] {
      assert a + b == b;
    } else {
      var head, rest := HeadAndRest(a, b);
      CollectCons(head, rest);
      CollectCons(head, rest + b);
      CollectSplit(rest, b);
    }
  }

  /** Around the i-th node, the leaves of a forest are those before it, its own and those after it. */
  lemma CollectAround<T>(nodes: seq<Node<T>>, i: nat, n: Node<T>)
    requires i < |nodes|
    ensures CollectAll(nodes[i := n]) == CollectAll(nodes[..i]) + CollectLeaves(n) + CollectAll(nodes[i + 1..])
  {
    CollectAppend(nodes[..i], n);
    CollectSplit(nodes[..i] + [n], nodes[i + 1..]);
    assert nodes[i := n] == nodes[..i] + [n] + nodes[i + 1..];
  }

  lemma {:induction false} InsertCollects<T>(nodes: seq<Node<T>>, segs: seq<string>, acc: string, leaf: Node<T>)
    requires leaf.Leaf?
    ensures multiset(CollectAll(Insert(nodes, segs, acc, leaf))) == multiset(CollectAll(nodes)) + multiset{leaf.tv}
    decreases |segs|
  {
    if segs == [] {
      CollectAppend(nodes, leaf);
    } else {
      var key := Under(acc, segs[0]);
      var found := FindFolder(nodes, segs[0]);
      if found.None? {
        InsertCollects([], segs[1..], key, leaf);
        CollectAppend(nodes, Folder(key, segs[0], Insert([], segs[1..], key, leaf)));
      } else {
        var i := found.value;
        InsertCollects(nodes[i].children, segs[1..], key, leaf);
        CollectAround(nodes, i, nodes[i]);
        CollectAround(nodes, i, Folder(nodes[i].key, segs[0], Insert(nodes[i].children, segs[1..], key, leaf)));
        assert nodes[i := nodes[i]] == nodes;
      }
    }
  }

  lemma StepCollects<T>(before: seq<Node<TagValue<T>>>, init: seq<TagValue<T>>, segs: seq<string>, tv: TagValue<T>)
    requires multiset(CollectAll(before)) == multiset(init)
    ensures multiset(CollectAll(Insert(before, segs, "", LeafOf(tv)))) == multiset(init + [tv])
  {
    InsertCollects(before, segs, "", LeafOf(tv));
  }

  /** Collecting the leaves of the built tree gives a permutation of the input. */
  lemma {:induction false} NothingIsLost<T>(tvs: seq<TagValue<T>>, place: Placing<T>)
    ensures multiset(CollectAll(Built(tvs, place))) == multiset(tvs)
  {
    if tvs != [] {
      var n := |tvs| - 1;
      NothingIsLost(tvs[..n], place);
      StepCollects(Built(tvs[..n], place), tvs[..n], place(tvs[n]), tvs[n]);
      assert tvs == tvs[..n] + [tvs[n]];
    }
  }
}
