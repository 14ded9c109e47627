/**
 What an expanded tag is called: its browse path joins the names along its path with dots, its id is
 the sanitized prefix and browse path, and its node is where the path ends. For both expansions.
 */
module ExpandNames {
  import opened Wrappers
  import opened Text
  import opened Browse
  import opened Expand
  import opened ExpandPaths

  // ---- names joined with dots -------------------------------------------------------------

  /** Empty names in front leave no dot behind. */
  function WithoutLeadingEmpty(names: seq<string>): seq<string> {
    if names != [] && names[0] == "" then WithoutLeadingEmpty(names[1..]) else names
  }

  /** What a walk that has come to `path` calls the end of these names. */
  function Spelled(path: string, names: seq<string>): string {
    if path == "" then Join(WithoutLeadingEmpty(names), '.') else path + "." + Join(names, '.')
  }

  lemma JoinCons(name: string, rest: seq<string>)
    ensures Join([name] + rest, '.') == if rest == [] then name else name + "." + Join(rest, '.')
  {
    assert ([name] + rest)[1..] == rest;
  }

  lemma SpelledOne(path: string, name: string)
    ensures Spelled(path, [name]) == ChildPath(path, name)
  {
    JoinCons(name, []);
    assert [name] + [] == [name] && [name][1..] == [];
    if name == "" { assert WithoutLeadingEmpty([name]) == []; }
  }

  lemma SpelledMore(path: string, name: string, rest: seq<string>)
    requires rest != []
    ensures Spelled(path, [name] + rest) == Spelled(ChildPath(path, name), rest)
  {
    var names := [name] + rest;
    JoinCons(name, rest);
    assert names[1..] == rest;
    if path == "" && name == "" {
      assert WithoutLeadingEmpty(names) == WithoutLeadingEmpty(rest);
    } else {
      assert Join(names, '.') == name + "." + Join(rest, '.');
    }
  }

  lemma {:induction false} LeadingEmptyIsShorter(names: seq<string>)
    ensures |Join(WithoutLeadingEmpty(names), '.')| <= |Join(names, '.')|
  {
    if names != [] && names[0] == "" {
      LeadingEmptyIsShorter(names[1..]);
      JoinCons("", names[1..]);
      assert names == [""] + names[1..];
    }
  }

  /** The browse path is plainly the joined names exactly when the first name is not empty, or is the only one. */
  lemma PlainlyJoinedIff(names: seq<string>)
    requires names != []
    ensures Spelled("", names) == Join(names, '.') <==> names[0] != "" || |names| == 1
  {
    if names[0] == "" {
      var rest := names[1..];
      assert names == [""] + rest;
      JoinCons("", rest);
      LeadingEmptyIsShorter(rest);
    }
  }

  /** A tag is called after these names, and stands for this node. */
  ghost predicate CalledAfter(env: Env, tag: Tag, path: string, names: seq<string>, nodeId: string) {
    && tag.browsePath == Spelled(path, names)
    && tag.id == env.sanitize(env.prefix + "_" + tag.browsePath)
    && tag.nodeId == nodeId
  }

  // ---- the driver's expansion ---------------------------------------------------------------

  /** The names of the references a path takes, and the node the last one points to. */
  ghost function NamesAlong(env: Env, refs: seq<Ref>, p: Path): (names: seq<string>)
    requires ReachesLeaf(env, refs, p)
    ensures |names| == |p|
    decreases |p|
  {
    [refs[p[0]].name] + if |p| == 1 then [] else NamesAlong(env, Refs(env.server, refs[p[0]].target).value, p[1..])
  }

  ghost function EndOf(env: Env, refs: seq<Ref>, p: Path): string
    requires ReachesLeaf(env, refs, p)
    decreases |p|
  {
    if |p| == 1 then refs[p[0]].target else EndOf(env, Refs(env.server, refs[p[0]].target).value, p[1..])
  }

  lemma {:induction false} TagIsCalledAfter(env: Env, refs: seq<Ref>, path: string, p: Path)
    requires ReachesLeaf(env, refs, p)
    ensures CalledAfter(env, TagAt(env, refs, path, p), path, NamesAlong(env, refs, p), EndOf(env, refs, p))
    decreases |p|
  {
    var name := refs[p[0]].name;
    if |p| == 1 {
      SpelledOne(path, name);
      assert NamesAlong(env, refs, p) == [name];
    } else {
      var grand := Refs(env.server, refs[p[0]].target).value;
      TagIsCalledAfter(env, grand, ChildPath(path, name), p[1..]);
      SpelledMore(path, name, NamesAlong(env, grand, p[1..]));
    }
  }

  /** Every tag of a successful expansion of a node is called after the reference names of its own leaf path. */
  lemma ExpandedTagsAreCalledAfter(env: Env, node: string, maxDepth: nat) returns (ps: seq<Path>)
    requires Expansion(env, node, maxDepth).Ok?
    ensures Refs(env.server, node).Ok? && |ps| == |Expansion(env, node, maxDepth).value|
    ensures var (refs, tags) := (Refs(env.server, node).value, Expansion(env, node, maxDepth).value);
            && Enumerates(env, refs, 0, maxDepth + 1, ps)
            && forall i | 0 <= i < |ps| ::
                 ReachesLeaf(env, refs, ps[i])
                 && CalledAfter(env, tags[i], "", NamesAlong(env, refs, ps[i]), EndOf(env, refs, ps[i]))
  {
    var refs := Refs(env.server, node).value;
    ps := LeavesEnumeratePaths(env, refs, 0, "", 0, maxDepth);
    forall i | 0 <= i < |ps|
      ensures ReachesLeaf(env, refs, ps[i])
      ensures CalledAfter(env, Expansion(env, node, maxDepth).value[i], "", NamesAlong(env, refs, ps[i]), EndOf(env, refs, ps[i]))
    {
      TagIsCalledAfter(env, refs, "", ps[i]);
    }
  }

  // ---- the simulator's walk --------------------------------------------------------------------

  /** The path goes down through folders and ends at a leaf. */
  ghost predicate ReachesSim(sim: SimTree, children: seq<SimNode>, p: Path)
    decreases |p|
  {
    && p != [] && p[0] < |children|
    && var ch := children[p[0]];
       if |p| == 1 then ch.isLeaf
       else !ch.isLeaf && BrowseChildren(sim, ch.nodeId).Ok? && ReachesSim(sim, BrowseChildren(sim, ch.nodeId).value, p[1..])
  }

  ghost function SimNames(sim: SimTree, children: seq<SimNode>, p: Path): (names: seq<string>)
    requires ReachesSim(sim, children, p)
    ensures |names| == |p|
    decreases |p|
  {
    var ch := children[p[0]];
    [ch.browseName] + if |p| == 1 then [] else SimNames(sim, BrowseChildren(sim, ch.nodeId).value, p[1..])
  }

  ghost function SimEnd(sim: SimTree, children: seq<SimNode>, p: Path): string
    requires ReachesSim(sim, children, p)
    decreases |p|
  {
    var ch := children[p[0]];
    if |p| == 1 then ch.nodeId else SimEnd(sim, BrowseChildren(sim, ch.nodeId).value, p[1..])
  }

  /** ps lists exactly the leaf paths of children[from..] of at most len steps, in depth-first order. */
  ghost predicate SimEnumerates(sim: SimTree, children: seq<SimNode>, from: nat, len: nat, ps: seq<Path>) {
    && InOrder(ps)
    && (forall i | 0 <= i < |ps| :: ReachesSim(sim, children, ps[i]) && |ps[i]| <= len && from <= ps[i][0])
    && (forall p: Path | ReachesSim(sim, children, p) && |p| <= len && from <= p[0] :: p in ps)
  }

  ghost predicate SimCalled(env: Env, sim: SimTree, children: seq<SimNode>, path: string, ps: seq<Path>, tags: seq<Tag>) {
    |tags| == |ps| && forall i | 0 <= i < |ps| ::
      ReachesSim(sim, children, ps[i])
      && CalledAfter(env, tags[i], path, SimNames(sim, children, ps[i]), SimEnd(sim, children, ps[i]))
  }

  /** The leaf paths through child i, from those of its own children. */
  ghost predicate SimEnumeratesAt(sim: SimTree, children: seq<SimNode>, i: nat, len: nat, ps: seq<Path>) {
    && InOrder(ps) && StartWith(i, ps)
    && (forall k | 0 <= k < |ps| :: ReachesSim(sim, children, ps[k]) && |ps[k]| <= len)
    && (forall p: Path | ReachesSim(sim, children, p) && |p| <= len && p[0] == i :: p in ps)
  }

  lemma SimThrough(env: Env, sim: SimTree, children: seq<SimNode>, i: nat, path: string, p: Path, tag: Tag)
    requires i < |children| && !children[i].isLeaf && BrowseChildren(sim, children[i].nodeId).Ok?
    requires var below := BrowseChildren(sim, children[i].nodeId).value;
             ReachesSim(sim, below, p)
             && CalledAfter(env, tag, ChildPath(path, children[i].browseName), SimNames(sim, below, p), SimEnd(sim, below, p))
    ensures ReachesSim(sim, children, [i] + p)
    ensures CalledAfter(env, tag, path, SimNames(sim, children, [i] + p), SimEnd(sim, children, [i] + p))
  {
    assert ([i] + p)[1..] == p;
    SpelledMore(path, children[i].browseName, SimNames(sim, BrowseChildren(sim, children[i].nodeId).value, p));
  }

  lemma SimUnderCalled(env: Env, sim: SimTree, children: seq<SimNode>, i: nat, path: string, ps: seq<Path>, tags: seq<Tag>)
    requires i < |children| && !children[i].isLeaf && BrowseChildren(sim, children[i].nodeId).Ok?
    requires SimCalled(env, sim, BrowseChildren(sim, children[i].nodeId).value, ChildPath(path, children[i].browseName), ps, tags)
    ensures SimCalled(env, sim, children, path, Under(i, ps), tags)
  {
    forall k | 0 <= k < |ps|
      ensures ReachesSim(sim, children, Under(i, ps)[k])
      ensures CalledAfter(env, tags[k], path, SimNames(sim, children, Under(i, ps)[k]), SimEnd(sim, children, Under(i, ps)[k]))
    {
      SimThrough(env, sim, children, i, path, ps[k], tags[k]);
    }
  }

  lemma SimStep(sim: SimTree, children: seq<SimNode>, i: nat, p: Path)
    requires i < |children| && !children[i].isLeaf && BrowseChildren(sim, children[i].nodeId).Ok?
    ensures ReachesSim(sim, children, [i] + p) <==> ReachesSim(sim, BrowseChildren(sim, children[i].nodeId).value, p)
  {
    assert ([i] + p)[1..] == p;
  }

  lemma SimUnder(sim: SimTree, children: seq<SimNode>, i: nat, len: nat, ps: seq<Path>)
    requires i < |children| && !children[i].isLeaf && BrowseChildren(sim, children[i].nodeId).Ok?
    requires SimEnumerates(sim, BrowseChildren(sim, children[i].nodeId).value, 0, len, ps)
    ensures SimEnumeratesAt(sim, children, i, len + 1, Under(i, ps))
  {
    UnderKeepsOrder(i, ps);
    forall k | 0 <= k < |ps| ensures ReachesSim(sim, children, Under(i, ps)[k]) {
      SimStep(sim, children, i, ps[k]);
    }
    forall p: Path | ReachesSim(sim, children, p) && |p| <= len + 1 && p[0] == i
      ensures p in Under(i, ps)
    {
      assert p == [i] + p[1..];
      SimStep(sim, children, i, p[1..]);
      InUnder(i, ps, p[1..]);
    }
  }

  lemma SimSplice(sim: SimTree, children: seq<SimNode>, i: nat, len: nat, here: seq<Path>, rest: seq<Path>)
    requires SimEnumeratesAt(sim, children, i, len, here) && SimEnumerates(sim, children, i + 1, len, rest)
    ensures SimEnumerates(sim, children, i, len, here + rest)
  {
    var ps := here + rest;
    assert forall k | 0 <= k < |rest| :: ReachesSim(sim, children, rest[k]) && rest[k] != [];
    SpliceOrder(i, here, rest);
    forall p: Path | ReachesSim(sim, children, p) && |p| <= len && i <= p[0]
      ensures p in ps
    {
      assert p in here || p in rest;
    }
    forall k | 0 <= k < |ps|
      ensures ReachesSim(sim, children, ps[k]) && |ps[k]| <= len && i <= ps[k][0]
    {
      assert ps[k] == if k < |here| then here[k] else rest[k - |here|];
    }
  }

  lemma SimLeaf(env: Env, sim: SimTree, children: seq<SimNode>, i: nat, path: string, len: nat, tag: Tag)
    requires i < |children| && children[i].isLeaf && len > 0
    requires var childPath := ChildPath(path, children[i].browseName);
             tag == Tag(env.sanitize(env.prefix + "_" + childPath), children[i].nodeId, childPath)
    ensures SimEnumeratesAt(sim, children, i, len, [[i]]) && SimCalled(env, sim, children, path, [[i]], [tag])
  {
    SpelledOne(path, children[i].browseName);
    assert SimNames(sim, children, [i]) == [children[i].browseName];
    forall p: Path | ReachesSim(sim, children, p) && p[0] == i ensures p in [[i]] {
      assert |p| == 1 && p == [i];
    }
  }

  /** A folder at the depth bound contributes nothing. */
  lemma SimTooDeep(sim: SimTree, children: seq<SimNode>, i: nat)
    requires i < |children| && !children[i].isLeaf
    ensures SimEnumeratesAt(sim, children, i, 1, [])
  {
    forall p: Path | ReachesSim(sim, children, p) && |p| <= 1 ensures p[0] != i {
      assert |p| == 1;
    }
  }

  lemma SimCalledSplice(env: Env, sim: SimTree, children: seq<SimNode>, path: string,
                        here: seq<Path>, x: seq<Tag>, rest: seq<Path>, y: seq<Tag>)
    requires SimCalled(env, sim, children, path, here, x) && SimCalled(env, sim, children, path, rest, y)
    ensures SimCalled(env, sim, children, path, here + rest, x + y)
  {
  }

  lemma WalkOneMore(env: Env, sim: SimTree, children: seq<SimNode>, i: nat, path: string, depth: nat, maxDepth: nat)
    requires i < |children| && depth <= maxDepth
    ensures WalkFrom(env, sim, children, i, path, depth, maxDepth)
      == Append(WalkAt(env, sim, children[i], path, depth, maxDepth), WalkFrom(env, sim, children, i + 1, path, depth, maxDepth))
  {
  }

  /**
   The simulator's walk that succeeds gives, in depth-first order and once each, exactly one tag per
   leaf path within the bound, called after the names along it.
   */
  lemma {:induction false} WalkedTagsAreCalledAfter(env: Env, sim: SimTree, children: seq<SimNode>, i: nat, path: string,
                                                    depth: nat, maxDepth: nat) returns (ps: seq<Path>)
    requires i <= |children| && depth <= maxDepth && WalkFrom(env, sim, children, i, path, depth, maxDepth).Ok?
    ensures SimEnumerates(sim, children, i, maxDepth + 1 - depth, ps)
    ensures SimCalled(env, sim, children, path, ps, WalkFrom(env, sim, children, i, path, depth, maxDepth).value)
    decreases maxDepth + 1 - depth, |children| - i, 1
  {
    ps := [];
    if i < |children| {
      WalkOneMore(env, sim, children, i, path, depth, maxDepth);
      var rest := WalkedTagsAreCalledAfter(env, sim, children, i + 1, path, depth, maxDepth);
      var here := WalkedChild(env, sim, children, i, path, depth, maxDepth);
      SimSplice(sim, children, i, maxDepth + 1 - depth, here, rest);
      SimCalledSplice(env, sim, children, path, here, WalkAt(env, sim, children[i], path, depth, maxDepth).value,
                      rest, WalkFrom(env, sim, children, i + 1, path, depth, maxDepth).value);
      ps := here + rest;
    }
  }

  lemma {:induction false} WalkedChild(env: Env, sim: SimTree, children: seq<SimNode>, i: nat, path: string,
                                       depth: nat, maxDepth: nat) returns (here: seq<Path>)
    requires i < |children| && depth <= maxDepth && WalkAt(env, sim, children[i], path, depth, maxDepth).Ok?
    ensures SimEnumeratesAt(sim, children, i, maxDepth + 1 - depth, here)
    ensures SimCalled(env, sim, children, path, here, WalkAt(env, sim, children[i], path, depth, maxDepth).value)
    decreases maxDepth + 1 - depth, |children| - i, 0
  {
    var ch := children[i];
    var childPath := ChildPath(path, ch.browseName);
    if ch.isLeaf {
      here := [[i]];
      SimLeaf(env, sim, children, i, path, maxDepth + 1 - depth,
              Tag(env.sanitize(env.prefix + "_" + childPath), ch.nodeId, childPath));
    } else if depth == maxDepth {
      here := [];
      SimTooDeep(sim, children, i);
    } else {
      var below := BrowseChildren(sim, ch.nodeId).value;
      var inner := WalkedTagsAreCalledAfter(env, sim, below, 0, childPath, depth + 1, maxDepth);
      SimUnder(sim, children, i, maxDepth - depth, inner);
      SimUnderCalled(env, sim, children, i, path, inner, WalkFrom(env, sim, below, 0, childPath, depth + 1, maxDepth).value);
      here := Under(i, inner);
    }
  }
}
