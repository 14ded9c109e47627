/**
 Expanding a structure node into its leaf variables: the batched traversal with one level of
 lookahead, an enumeration of reference paths it must agree with, and the plain recursive walk of
 the simulator. The address space may be cyclic; depth bounds the traversal.
 */
module Expand {
  import opened Wrappers
  import opened Browse
  import D = DataTypes

  datatype Tag = Tag(id: string, nodeId: string, browsePath: string)

  /** The server, the tag id prefix, and the id sanitizer both expansions share. */
  datatype Env = Env(server: Server, prefix: string, sanitize: string -> string)

  function ChildPath(path: string, name: string): string {
    if path != "" then path + "." + name else name
  }

  function TagFor(env: Env, ref: Ref, path: string): Tag
    requires ref.Ref?
  {
    var childPath := ChildPath(path, ref.name);
    Tag(env.sanitize(env.prefix + "_" + childPath), ref.target, childPath)
  }

  function Append(a: Result<seq<Tag>>, b: Result<seq<Tag>>): Result<seq<Tag>> {
    if a.Ok? && b.Ok? then Ok(a.value + b.value) else Err
  }

  /** One node at a time: the leaves below refs[from..], or an error if a browse fails. */
  function Leaves(env: Env, refs: seq<Ref>, from: nat, path: string, depth: nat, maxDepth: nat): Result<seq<Tag>>
    requires from <= |refs|
    decreases maxDepth + 1 - depth, |refs| - from, 1
  {
    if depth > maxDepth || from == |refs| then Ok([])
    else Append(LeavesAt(env, refs, from, path, depth, maxDepth), Leaves(env, refs, from + 1, path, depth, maxDepth))
  }

  function LeavesAt(env: Env, refs: seq<Ref>, i: nat, path: string, depth: nat, maxDepth: nat): Result<seq<Tag>>
    requires i < |refs| && depth <= maxDepth
    decreases maxDepth + 1 - depth, |refs| - i, 0
  {
    var ref := refs[i];
    if ref.Broken? then Ok([])
    else
      match Refs(env.server, ref.target)
      case Err => Err
      case Ok(grand) =>
        if grand != [] then Leaves(env, grand, 0, ChildPath(path, ref.name), depth + 1, maxDepth)
        else if ref.kind == Variable then Ok([TagFor(env, ref, path)])
        else Ok([])
  }

  // ---- the batched traversal ---------------------------------------------------------

  /** The unbroken references of a level, in order; at gives their positions. */
  method Children(refs: seq<Ref>) returns (children: seq<Ref>, ghost at: seq<nat>)
    ensures |children| == |at| && IsSelection(refs, |refs|, children, at)
  {
    children, at := [], [];
    for i := 0 to |refs|
      invariant |children| == |at| && IsSelection(refs, i, children, at)
    {
      if refs[i].Broken? {
        continue;
      }
      children, at := children + [refs[i]], at + [i];
    }
  }

  /** With the references before from done, acc has become out. */
  ghost predicate Progress(env: Env, refs: seq<Ref>, from: nat, path: string, depth: nat, maxDepth: nat,
                           acc: seq<Tag>, out: seq<Tag>)
    requires from <= |refs|
  {
    var (all, rest) := (Leaves(env, refs, 0, path, depth, maxDepth), Leaves(env, refs, from, path, depth, maxDepth));
    && (all.Err? <==> rest.Err?)
    && (all.Ok? && rest.Ok? ==> acc + all.value == out + rest.value)
  }

  /** One reference done, and the broken ones after it skipped. */
  lemma ProgressStep(env: Env, refs: seq<Ref>, from: nat, next: nat, path: string, depth: nat, maxDepth: nat,
                     acc: seq<Tag>, out: seq<Tag>, out': seq<Tag>)
    requires from < next <= |refs| && depth <= maxDepth && forall k | from < k < next :: refs[k].Broken?
    requires Progress(env, refs, from, path, depth, maxDepth, acc, out)
    requires LeavesAt(env, refs, from, path, depth, maxDepth).Ok?
    requires out' == out + LeavesAt(env, refs, from, path, depth, maxDepth).value
    ensures Progress(env, refs, next, path, depth, maxDepth, acc, out')
  {
    var here := LeavesAt(env, refs, from, path, depth, maxDepth).value;
    var rest := Leaves(env, refs, from + 1, path, depth, maxDepth);
    SkipTo(env, refs, from + 1, next, path, depth, maxDepth);
    if rest.Ok? {
      assert out + (here + rest.value) == out' + rest.value;
    }
  }

  ghost function NextAt(at: seq<nat>, i: nat, end: nat): nat {
    if i < |at| then at[i] else end
  }

  /**
   expandFromRefs: every child of the level is browsed in one batch, and what came back is handed
   to the recursive call, so no node is browsed twice.
   */
  method ExpandFromRefs(env: Env, refs: seq<Ref>, path: string, depth: nat, maxDepth: nat, acc: seq<Tag>)
    returns (failed: bool, out: seq<Tag>)
    ensures failed <==> Leaves(env, refs, 0, path, depth, maxDepth).Err?
    ensures !failed ==> out == acc + Leaves(env, refs, 0, path, depth, maxDepth).value
    decreases maxDepth + 1 - depth
  {
    failed, out := false, acc;
    if depth > maxDepth {
      return;
    }
    var children, at := Children(refs);
    if |children| == 0 {
      SkipTo(env, refs, 0, |refs|, path, depth, maxDepth);
      return;
    }
    var ids := seq(|children|, i requires 0 <= i < |children| => if children[i].Ref? then children[i].target else "");
    var grandAll := BrowseRefsMulti(env.server, ids);
    if grandAll.Err? {
      var i :| 0 <= i < |ids| && Refs(env.server, ids[i]).Err?;
      FailsAt(env, refs, at[i], 0, path, depth, maxDepth);
      return true, out;
    }
    ghost var from := at[0];
    SkipTo(env, refs, 0, from, path, depth, maxDepth);
    for i := 0 to |children|
      invariant from == NextAt(at, i, |refs|) <= |refs|
      invariant Progress(env, refs, from, path, depth, maxDepth, acc, out)
    {
      var ch, grandRefs := children[i], grandAll.value[i];
      ghost var before := out;
      assert Refs(env.server, ids[i]) == Ok(grandRefs) && ids[i] == ch.target;
      if ch.kind == Variable && |grandRefs| == 0 {
        out := out + [TagFor(env, ch, path)];
      } else if |grandRefs| != 0 {
        failed, out := ExpandFromRefs(env, grandRefs, ChildPath(path, ch.name), depth + 1, maxDepth, out);
        if failed {
          assert LeavesAt(env, refs, from, path, depth, maxDepth).Err?;
          assert Leaves(env, refs, from, path, depth, maxDepth).Err?;
          return;
        }
      }
      ghost var next := NextAt(at, i + 1, |refs|);
      ProgressStep(env, refs, from, next, path, depth, maxDepth, acc, before, out);
      from := next;
    }
  }

  /** expandWalk: browse the root, then expand from what it refers to. */
  method ExpandWalk(env: Env, node: string, maxDepth: nat) returns (failed: bool, out: seq<Tag>)
    ensures failed <==> Expansion(env, node, maxDepth).Err?
    ensures !failed ==> out == Expansion(env, node, maxDepth).value
  {
    var refs := DrainPages(env.server, node, Reply(env.server, Point(node, 0)));
    if refs.Err? {
      return true, [];
    }
    failed, out := ExpandFromRefs(env, refs.value, "", 0, maxDepth, []);
  }

  function Expansion(env: Env, node: string, maxDepth: nat): Result<seq<Tag>> {
    match Refs(env.server, node)
    case Err => Err
    case Ok(refs) => Leaves(env, refs, 0, "", 0, maxDepth)
  }

  datatype Typed = Typed(tag: Tag, dataType: string)

  datatype Phase = Browsing | Typing

  datatype Report = Report(phase: Phase, done: nat, total: nat)

  function NodeIds(tags: seq<Tag>): (r: seq<string>)
    ensures |r| == |tags| && forall i | 0 <= i < |r| :: r[i] == tags[i].nodeId
  {
    seq(|tags|, i requires 0 <= i < |tags| => tags[i].nodeId)
  }

  /** Tag i has the data type that reading its node gave, resolved together with the tag's name. */
  ghost predicate TypedBy(typed: seq<Typed>, tags: seq<Tag>, types: D.Env, resolve: (string, Tag) -> string) {
    |typed| == |tags| && forall i | 0 <= i < |tags| ::
      typed[i] == Typed(tags[i], resolve(D.Slot(types, NodeIds(tags), i), tags[i]))
  }

  /** One report per chunk of the data type read. */
  ghost predicate ReportsOf(reports: seq<Report>, n: nat) {
    && |reports| == (n + 99) / 100
    && forall k | 0 <= k < |reports| :: reports[k] == Report(Typing, D.Min((k + 1) * 100, n), n)
  }

  /** fillExpandedDataTypes: the types of all tags are read in one batch. */
  method FillDataTypes(types: D.Env, resolve: (string, Tag) -> string, tags: seq<Tag>)
    returns (typed: seq<Typed>, reports: seq<Report>)
    ensures TypedBy(typed, tags, types, resolve) && ReportsOf(reports, |tags|)
  {
    if |tags| == 0 {
      return [], [];
    }
    var read, progress := D.ReadDataTypesBatch(types, NodeIds(tags));
    reports := seq(|progress|, k requires 0 <= k < |progress| => Report(Typing, progress[k].0, progress[k].1));
    typed := [];
    for i := 0 to |tags|
      invariant |typed| == i
      invariant forall j | 0 <= j < i :: typed[j] == Typed(tags[j], resolve(read[j], tags[j]))
    {
      typed := typed + [Typed(tags[i], resolve(read[i], tags[i]))];
    }
  }

  /**
   ExpandStructure: the leaves of the expansion, each with its data type. A failed expansion reports
   nothing; otherwise the browse is reported once, then every chunk of the data type read.
   */
  method ExpandStructure(server: Server, sanitize: string -> string, types: D.Env, resolve: (string, Tag) -> string,
                         node: string, parentTagId: string, maxDepth: int)
    returns (failed: bool, out: seq<Typed>, reports: seq<Report>)
    ensures var depth: nat := if maxDepth <= 0 then 16 else maxDepth;
            var all := Expansion(Env(server, if parentTagId == "" then "udt" else parentTagId, sanitize), node, depth);
            && (failed <==> all.Err?)
            && (failed ==> out == [] && reports == [])
            && (!failed ==>
                  && TypedBy(out, all.value, types, resolve)
                  && reports != [] && reports[0] == Report(Browsing, |all.value|, |all.value|)
                  && ReportsOf(reports[1..], |all.value|))
  {
    var depth: nat := if maxDepth <= 0 then 16 else maxDepth;
    var tags;
    failed, tags := ExpandWalk(Env(server, if parentTagId == "" then "udt" else parentTagId, sanitize), node, depth);
    if failed {
      return true, [], [];
    }
    var typing;
    out, typing := FillDataTypes(types, resolve, tags);
    reports := [Report(Browsing, |tags|, |tags|)] + typing;
    assert reports[1..] == typing;
  }

  /** children are the unbroken references among the first n, at the positions at. */
  ghost predicate IsSelection(refs: seq<Ref>, n: nat, children: seq<Ref>, at: seq<nat>)
    requires |children| == |at| && n <= |refs|
  {
    && (forall i | 0 <= i < |at| :: at[i] < n && children[i] == refs[at[i]] && children[i].Ref?)
    && (forall i, j | 0 <= i < j < |at| :: at[i] < at[j])
    && (forall k | 0 <= k < n && refs[k].Ref? :: k in at)
  }

  /** Broken references contribute nothing. */
  lemma {:induction false} SkipTo(env: Env, refs: seq<Ref>, from: nat, to: nat, path: string, depth: nat, maxDepth: nat)
    requires from <= to <= |refs| && forall k | from <= k < to :: refs[k].Broken?
    ensures Leaves(env, refs, from, path, depth, maxDepth) == Leaves(env, refs, to, path, depth, maxDepth)
    decreases |refs| - from
  {
    if from < to {
      SkipTo(env, refs, from + 1, to, path, depth, maxDepth);
      if depth <= maxDepth {
        var rest := Leaves(env, refs, from + 1, path, depth, maxDepth);
        assert rest.Ok? ==> [] + rest.value == rest.value;
      }
    }
  }

  lemma {:induction false} FailsAt(env: Env, refs: seq<Ref>, i: nat, from: nat, path: string, depth: nat, maxDepth: nat)
    requires from <= i < |refs| && refs[i].Ref? && Refs(env.server, refs[i].target).Err? && depth <= maxDepth
    ensures Leaves(env, refs, from, path, depth, maxDepth).Err?
    decreases i - from
  {
    if from < i {
      FailsAt(env, refs, i, from + 1, path, depth, maxDepth);
    }
  }
}
