/**
 What an expansion means: one tag per reference path that ends at a variable without children, in
 depth-first order; and its agreement with the simulator's plain recursive walk.
 */
module ExpandPaths {
  import opened Wrappers
  import opened Browse
  import opened Expand

  /** A reference path below a node: the position of the reference taken at each step. */
  type Path = seq<nat>

  /** The path follows unbroken references and ends at a variable that refers to nothing. */
  ghost predicate ReachesLeaf(env: Env, refs: seq<Ref>, p: Path)
    decreases |p|
  {
    && p != [] && p[0] < |refs| && refs[p[0]].Ref?
    && match Refs(env.server, refs[p[0]].target)
       case Err => false
       case Ok(grand) =>
         if |p| == 1 then grand == [] && refs[p[0]].kind == Variable else ReachesLeaf(env, grand, p[1..])
  }

  /** The tag at the end of a path: the leaf's node id, and the dotted names along the way. */
  ghost function TagAt(env: Env, refs: seq<Ref>, path: string, p: Path): Tag
    requires ReachesLeaf(env, refs, p)
    decreases |p|
  {
    var ref := refs[p[0]];
    if |p| == 1 then TagFor(env, ref, path)
    else TagAt(env, Refs(env.server, ref.target).value, ChildPath(path, ref.name), p[1..])
  }

  /** Depth-first order of paths. */
  predicate Before(p: Path, q: Path) {
    p != [] && q != [] && (p[0] < q[0] || (p[0] == q[0] && Before(p[1..], q[1..])))
  }

  ghost predicate InOrder(ps: seq<Path>) {
    forall i, j | 0 <= i < j < |ps| :: Before(ps[i], ps[j])
  }

  /** ps lists exactly the leaf paths of refs[from..] of at most len references, in order. */
  ghost predicate Enumerates(env: Env, refs: seq<Ref>, from: nat, len: nat, ps: seq<Path>) {
    && InOrder(ps)
    && (forall i | 0 <= i < |ps| :: ReachesLeaf(env, refs, ps[i]) && |ps[i]| <= len && from <= ps[i][0])
    && (forall p: Path | ReachesLeaf(env, refs, p) && |p| <= len && from <= p[0] :: p in ps)
  }

  ghost predicate TagsOf(env: Env, refs: seq<Ref>, path: string, ps: seq<Path>, tags: seq<Tag>) {
    |tags| == |ps| && forall i | 0 <= i < |ps| :: ReachesLeaf(env, refs, ps[i]) && tags[i] == TagAt(env, refs, path, ps[i])
  }

  function Under(i: nat, ps: seq<Path>): (r: seq<Path>)
    ensures |r| == |ps| && forall k | 0 <= k < |ps| :: r[k] == [i] + ps[k]
  {
    seq(|ps|, k requires 0 <= k < |ps| => [i] + ps[k])
  }

  /** Every listed path starts with i. */
  ghost predicate StartWith(i: nat, ps: seq<Path>) {
    forall k | 0 <= k < |ps| :: ps[k] != [] && ps[k][0] == i
  }

  /** ps lists exactly the leaf paths of at most len references that take reference i first, in order. */
  ghost predicate EnumeratesAt(env: Env, refs: seq<Ref>, i: nat, len: nat, ps: seq<Path>) {
    && InOrder(ps) && StartWith(i, ps)
    && (forall k | 0 <= k < |ps| :: |ps[k]| <= len)
    && (forall p: Path | ReachesLeaf(env, refs, p) && |p| <= len && p[0] == i :: p in ps)
  }

  lemma ThroughChild(env: Env, refs: seq<Ref>, i: nat, grand: seq<Ref>, path: string, p: Path)
    requires i < |refs| && refs[i].Ref? && Refs(env.server, refs[i].target) == Ok(grand) && ReachesLeaf(env, grand, p)
    ensures ReachesLeaf(env, refs, [i] + p)
    ensures TagAt(env, refs, path, [i] + p) == TagAt(env, grand, ChildPath(path, refs[i].name), p)
  {
    assert ([i] + p)[1..] == p;
  }

  lemma BelowChild(env: Env, refs: seq<Ref>, i: nat, grand: seq<Ref>, p: Path)
    requires i < |refs| && refs[i].Ref? && Refs(env.server, refs[i].target) == Ok(grand) && grand != []
    requires ReachesLeaf(env, refs, p) && p[0] == i
    ensures p == [i] + p[1..] && ReachesLeaf(env, grand, p[1..])
  {
  }

  lemma BeforeUnder(i: nat, p: Path, q: Path)
    ensures Before([i] + p, [i] + q) <==> Before(p, q)
  {
    assert ([i] + p)[1..] == p && ([i] + q)[1..] == q;
  }

  lemma UnderKeepsOrder(i: nat, ps: seq<Path>)
    requires InOrder(ps)
    ensures InOrder(Under(i, ps)) && StartWith(i, Under(i, ps))
  {
    var us := Under(i, ps);
    forall j, k | 0 <= j < k < |us|
      ensures Before(us[j], us[k])
    {
      BeforeUnder(i, ps[j], ps[k]);
    }
  }

  /** The leaf paths through one child, from those of its own references. */
  lemma UnderChild(env: Env, refs: seq<Ref>, i: nat, grand: seq<Ref>, len: nat, ps: seq<Path>)
    requires i < |refs| && refs[i].Ref? && Refs(env.server, refs[i].target) == Ok(grand) && grand != []
    requires Enumerates(env, grand, 0, len, ps)
    ensures EnumeratesAt(env, refs, i, len + 1, Under(i, ps))
  {
    UnderKeepsOrder(i, ps);
    forall p: Path | ReachesLeaf(env, refs, p) && |p| <= len + 1 && p[0] == i
      ensures p in Under(i, ps)
    {
      BelowChild(env, refs, i, grand, p);
      InUnder(i, ps, p[1..]);
    }
  }

  lemma InUnder(i: nat, ps: seq<Path>, p: Path)
    requires p in ps
    ensures [i] + p in Under(i, ps)
  {
    var k :| 0 <= k < |ps| && ps[k] == p;
    assert Under(i, ps)[k] == [i] + p;
  }

  lemma UnderChildTags(env: Env, refs: seq<Ref>, i: nat, grand: seq<Ref>, path: string, ps: seq<Path>, tags: seq<Tag>)
    requires i < |refs| && refs[i].Ref? && Refs(env.server, refs[i].target) == Ok(grand)
    requires TagsOf(env, grand, ChildPath(path, refs[i].name), ps, tags)
    ensures TagsOf(env, refs, path, Under(i, ps), tags)
  {
    forall k | 0 <= k < |ps|
      ensures ReachesLeaf(env, refs, Under(i, ps)[k]) && tags[k] == TagAt(env, refs, path, Under(i, ps)[k])
    {
      ThroughChild(env, refs, i, grand, path, ps[k]);
    }
  }

  lemma SpliceOrder(i: nat, here: seq<Path>, rest: seq<Path>)
    requires InOrder(here) && InOrder(rest) && StartWith(i, here)
    requires forall k | 0 <= k < |rest| :: rest[k] != [] && rest[k][0] > i
    ensures InOrder(here + rest)
  {
  }

  lemma TagsSplice(env: Env, refs: seq<Ref>, path: string, a: seq<Path>, x: seq<Tag>, b: seq<Path>, y: seq<Tag>)
    requires TagsOf(env, refs, path, a, x) && TagsOf(env, refs, path, b, y)
    ensures TagsOf(env, refs, path, a + b, x + y)
  {
  }

  /** The paths of one child go before those of the later ones. */
  lemma Splice(env: Env, refs: seq<Ref>, i: nat, len: nat, here: seq<Path>, rest: seq<Path>)
    requires EnumeratesAt(env, refs, i, len, here) && Enumerates(env, refs, i + 1, len, rest)
    requires forall k | 0 <= k < |here| :: ReachesLeaf(env, refs, here[k])
    ensures Enumerates(env, refs, i, len, here + rest)
  {
    var ps := here + rest;
    assert forall k | 0 <= k < |rest| :: ReachesLeaf(env, refs, rest[k]) && rest[k] != [];
    SpliceOrder(i, here, rest);
    forall p: Path | ReachesLeaf(env, refs, p) && |p| <= len && i <= p[0]
      ensures p in ps
    {
      assert p in here || p in rest;
    }
    forall k | 0 <= k < |ps|
      ensures ReachesLeaf(env, refs, ps[k]) && |ps[k]| <= len && i <= ps[k][0]
    {
      assert ps[k] == if k < |here| then here[k] else rest[k - |here|];
    }
  }

  lemma DeadEnd(env: Env, refs: seq<Ref>, i: nat, p: Path)
    requires i < |refs| && refs[i].Ref? && Refs(env.server, refs[i].target) == Ok([])
    requires ReachesLeaf(env, refs, p) && p[0] == i
    ensures p == [i] && refs[i].kind == Variable
  {
  }

  /**
   Soundness and completeness: an expansion that succeeds lists, in depth-first order and once
   each, the tags of exactly the leaf paths within the depth bound.
   */
  lemma {:induction false} LeavesEnumeratePaths(env: Env, refs: seq<Ref>, from: nat, path: string, depth: nat, maxDepth: nat)
    returns (ps: seq<Path>)
    requires from <= |refs| && depth <= maxDepth + 1 && Leaves(env, refs, from, path, depth, maxDepth).Ok?
    ensures Enumerates(env, refs, from, maxDepth + 1 - depth, ps)
    ensures TagsOf(env, refs, path, ps, Leaves(env, refs, from, path, depth, maxDepth).value)
    decreases maxDepth + 1 - depth, |refs| - from
  {
    ps := [];
    if depth <= maxDepth && from < |refs| {
      var rest := LeavesEnumeratePaths(env, refs, from + 1, path, depth, maxDepth);
      var restTags := Leaves(env, refs, from + 1, path, depth, maxDepth).value;
      var hereTags := LeavesAt(env, refs, from, path, depth, maxDepth).value;
      var here := PathsAt(env, refs, from, path, depth, maxDepth);
      Splice(env, refs, from, maxDepth + 1 - depth, here, rest);
      TagsSplice(env, refs, path, here, hereTags, rest, restTags);
      ps := here + rest;
    }
  }

  lemma {:induction false} PathsAt(env: Env, refs: seq<Ref>, i: nat, path: string, depth: nat, maxDepth: nat)
    returns (here: seq<Path>)
    requires i < |refs| && depth <= maxDepth && LeavesAt(env, refs, i, path, depth, maxDepth).Ok?
    ensures EnumeratesAt(env, refs, i, maxDepth + 1 - depth, here)
    ensures TagsOf(env, refs, path, here, LeavesAt(env, refs, i, path, depth, maxDepth).value)
    decreases maxDepth + 1 - depth, |refs| - i, 0
  {
    here := [];
    if refs[i].Ref? {
      var grand := Refs(env.server, refs[i].target).value;
      if grand != [] {
        var childPath := ChildPath(path, refs[i].name);
        var below := LeavesEnumeratePaths(env, grand, 0, childPath, depth + 1, maxDepth);
        UnderChild(env, refs, i, grand, maxDepth - depth, below);
        UnderChildTags(env, refs, i, grand, path, below, Leaves(env, grand, 0, childPath, depth + 1, maxDepth).value);
        here := Under(i, below);
      } else {
        here := if refs[i].kind == Variable then [[i]] else [];
        assert refs[i].kind == Variable ==> ReachesLeaf(env, refs, [i]);
        forall p: Path | ReachesLeaf(env, refs, p) && p[0] == i
          ensures p in here
        {
          DeadEnd(env, refs, i, p);
        }
      }
    }
  }

  ghost predicate ErrorFree(server: Server) {
    forall node: string :: Refs(server, node).Ok?
  }

  /** Against a server without errors an expansion always succeeds, cycles or not. */
  lemma {:induction false} ErrorFreeSucceeds(env: Env, refs: seq<Ref>, from: nat, path: string, depth: nat, maxDepth: nat)
    requires ErrorFree(env.server) && from <= |refs|
    ensures Leaves(env, refs, from, path, depth, maxDepth).Ok?
    decreases maxDepth + 1 - depth, |refs| - from
  {
    if depth <= maxDepth && from < |refs| {
      ErrorFreeSucceeds(env, refs, from + 1, path, depth, maxDepth);
      if refs[from].Ref? {
        assert Refs(env.server, refs[from].target).Ok?;
        var grand := Refs(env.server, refs[from].target).value;
        ErrorFreeSucceeds(env, grand, 0, ChildPath(path, refs[from].name), depth + 1, maxDepth);
      }
    }
  }

  /** The whole expansion of a node, in those terms. */
  lemma ExpansionIsTheLeafPaths(env: Env, node: string, maxDepth: nat) returns (ps: seq<Path>)
    requires ErrorFree(env.server)
    ensures Refs(env.server, node).Ok? && Expansion(env, node, maxDepth).Ok?
    ensures Enumerates(env, Refs(env.server, node).value, 0, maxDepth + 1, ps)
    ensures TagsOf(env, Refs(env.server, node).value, "", ps, Expansion(env, node, maxDepth).value)
  {
    assert Refs(env.server, node).Ok?;
    var refs := Refs(env.server, node).value;
    ErrorFreeSucceeds(env, refs, 0, "", 0, maxDepth);
    ps := LeavesEnumeratePaths(env, refs, 0, "", 0, maxDepth);
  }

  // ---- the simulator's walk ------------------------------------------------------------

  const ROOT := "ns=0;i=84"

  datatype SimNode = SimNode(nodeId: string, browseName: string, isLeaf: bool)

  type SimTree = map<string, seq<SimNode>>

  function BrowseChildren(sim: SimTree, parent: string): Result<seq<SimNode>> {
    var node := if parent == "" then ROOT else parent;
    if node in sim then Ok(sim[node]) else Err
  }

  /** Only nodes of the tree can be browsed, and no node means the root. */
  lemma BrowsingTheTree(sim: SimTree, parent: string)
    ensures BrowseChildren(sim, "") == BrowseChildren(sim, "ns=0;i=84")
    ensures parent != "" ==> (BrowseChildren(sim, parent).Ok? <==> parent in sim)
    ensures parent in sim && parent != "" ==> BrowseChildren(sim, parent) == Ok(sim[parent])
  {
  }

  function Walk(env: Env, sim: SimTree, node: string, path: string, depth: nat, maxDepth: nat): Result<seq<Tag>>
    decreases maxDepth + 1 - depth, 2, 0
  {
    if depth > maxDepth then Ok([])
    else
      match BrowseChildren(sim, node)
      case Err => Err
      case Ok(children) => WalkFrom(env, sim, children, 0, path, depth, maxDepth)
  }

  function WalkFrom(env: Env, sim: SimTree, children: seq<SimNode>, i: nat, path: string, depth: nat, maxDepth: nat)
    : Result<seq<Tag>>
    requires i <= |children| && depth <= maxDepth
    decreases maxDepth + 1 - depth, 1, |children| - i
  {
    if i == |children| then Ok([])
    else Append(WalkAt(env, sim, children[i], path, depth, maxDepth), WalkFrom(env, sim, children, i + 1, path, depth, maxDepth))
  }

  function WalkAt(env: Env, sim: SimTree, ch: SimNode, path: string, depth: nat, maxDepth: nat): Result<seq<Tag>>
    requires depth <= maxDepth
    decreases maxDepth + 1 - depth, 0, 0
  {
    var childPath := ChildPath(path, ch.browseName);
    if ch.isLeaf then Ok([Tag(env.sanitize(env.prefix + "_" + childPath), ch.nodeId, childPath)])
    else Walk(env, sim, ch.nodeId, childPath, depth + 1, maxDepth)
  }

  /** walk as it is written, appending to the caller's slice. */
  method WalkInto(env: Env, sim: SimTree, node: string, path: string, depth: nat, maxDepth: nat, acc: seq<Tag>)
    returns (failed: bool, out: seq<Tag>)
    ensures failed <==> Walk(env, sim, node, path, depth, maxDepth).Err?
    ensures !failed ==> out == acc + Walk(env, sim, node, path, depth, maxDepth).value
    decreases maxDepth + 1 - depth
  {
    failed, out := false, acc;
    if depth > maxDepth {
      return;
    }
    var browsed := BrowseChildren(sim, node);
    if browsed.Err? {
      return true, out;
    }
    var children := browsed.value;
    for i := 0 to |children|
      invariant var (all, rest) := (Walk(env, sim, node, path, depth, maxDepth),
                                    WalkFrom(env, sim, children, i, path, depth, maxDepth));
        (all.Err? <==> rest.Err?) && (all.Ok? && rest.Ok? ==> acc + all.value == out + rest.value)
    {
      var ch := children[i];
      var childPath := ChildPath(path, ch.browseName);
      ghost var before := out;
      if ch.isLeaf {
        out := out + [Tag(env.sanitize(env.prefix + "_" + childPath), ch.nodeId, childPath)];
      } else {
        failed, out := WalkInto(env, sim, ch.nodeId, childPath, depth + 1, maxDepth, out);
        if failed {
          return;
        }
      }
      ghost var rest := WalkFrom(env, sim, children, i + 1, path, depth, maxDepth);
      assert rest.Ok? ==> before + (out[|before|..] + rest.value) == out + rest.value;
    }
  }

  /** The simulator and the server show the same space: leaves are childless variables, folders are known. */
  ghost predicate Mirrors(env: Env, sim: SimTree) {
    && ErrorFree(env.server)
    && forall node: string | BrowseChildren(sim, node).Ok? ::
         SameChildren(env, sim, BrowseChildren(sim, node).value, Refs(env.server, node).value)
  }

  ghost predicate SameChildren(env: Env, sim: SimTree, children: seq<SimNode>, refs: seq<Ref>)
    requires ErrorFree(env.server)
  {
    && |children| == |refs|
    && forall i | 0 <= i < |children| ::
         && refs[i].Ref? && refs[i].target == children[i].nodeId && refs[i].name == children[i].browseName
         && (children[i].isLeaf <==> refs[i].kind == Variable && Refs(env.server, refs[i].target).value == [])
         && (!children[i].isLeaf ==> BrowseChildren(sim, children[i].nodeId).Ok?)
  }

  lemma {:induction false} WalkFromAgrees(env: Env, sim: SimTree, children: seq<SimNode>, refs: seq<Ref>, i: nat,
                                          path: string, depth: nat, maxDepth: nat)
    requires Mirrors(env, sim) && SameChildren(env, sim, children, refs) && i <= |children| && depth <= maxDepth
    ensures WalkFrom(env, sim, children, i, path, depth, maxDepth) == Leaves(env, refs, i, path, depth, maxDepth)
    decreases maxDepth + 1 - depth, |children| - i
  {
    if i < |children| {
      WalkFromAgrees(env, sim, children, refs, i + 1, path, depth, maxDepth);
      var ch := children[i];
      assert refs[i].target == ch.nodeId;
      if !ch.isLeaf && depth < maxDepth {
        WalkFromAgrees(env, sim, BrowseChildren(sim, ch.nodeId).value, Refs(env.server, ch.nodeId).value, 0,
                       ChildPath(path, ch.browseName), depth + 1, maxDepth);
        assert Walk(env, sim, ch.nodeId, ChildPath(path, ch.browseName), depth + 1, maxDepth)
            == Leaves(env, Refs(env.server, ch.nodeId).value, 0, ChildPath(path, ch.browseName), depth + 1, maxDepth);
      }
      ChildAgrees(env, sim, children, refs, i, path, depth, maxDepth);
    }
  }

  lemma ChildAgrees(env: Env, sim: SimTree, children: seq<SimNode>, refs: seq<Ref>, i: nat,
                    path: string, depth: nat, maxDepth: nat)
    requires Mirrors(env, sim) && SameChildren(env, sim, children, refs) && i < |children| && depth <= maxDepth
    requires !children[i].isLeaf && depth < maxDepth ==>
      var (id, below) := (children[i].nodeId, ChildPath(path, children[i].browseName));
      Refs(env.server, id).Ok? && Walk(env, sim, id, below, depth + 1, maxDepth)
        == Leaves(env, Refs(env.server, id).value, 0, below, depth + 1, maxDepth)
    ensures LeavesAt(env, refs, i, path, depth, maxDepth) ==
      if children[i].isLeaf then Ok([TagFor(env, refs[i], path)])
      else Walk(env, sim, children[i].nodeId, ChildPath(path, children[i].browseName), depth + 1, maxDepth)
  {
    assert refs[i].target == children[i].nodeId;
  }

  /** For one depth bound, the batched expansion and the plain walk give the same tags. */
  lemma BatchedExpansionRefinesWalk(env: Env, sim: SimTree, node: string, maxDepth: nat)
    requires Mirrors(env, sim) && BrowseChildren(sim, node).Ok?
    ensures Expansion(env, node, maxDepth) == Walk(env, sim, node, "", 0, maxDepth)
    ensures Expansion(env, node, maxDepth).Ok?
  {
    var refs := Refs(env.server, node).value;
    WalkFromAgrees(env, sim, BrowseChildren(sim, node).value, refs, 0, "", 0, maxDepth);
    ErrorFreeSucceeds(env, refs, 0, "", 0, maxDepth);
  }
}
