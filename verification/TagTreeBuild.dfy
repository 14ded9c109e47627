/**
 buildTagTree as it works: folders are objects with a list of children and a map from names, each
 tag value walks down from the root, making what is missing, and the maps are stripped at the end.
 TagTree says what tree comes out.
 */
module TagTreeBuild {
  import opened Wrappers
  import opened TagTree

  datatype Child<T> = Sub(folder: OpenFolder<T>) | Item(key: string, tv: T)

  /** A folder while the tree is being built. */
  class OpenFolder<T> {
    const key: string
    const name: string
    var children: seq<Child<T>>
    var byName: map<string, OpenFolder<T>>
    ghost const parent: OpenFolder?<T>
    ghost const slot: nat   // its place among the children of its parent
    ghost const depth: nat

    constructor (key: string, name: string, ghost parent: OpenFolder?<T>, ghost slot: nat, ghost depth: nat)
      ensures this.key == key && this.name == name && children == [] && byName == map[]
      ensures this.parent == parent && this.slot == slot && this.depth == depth
    {
      this.key, this.name, this.parent, this.slot, this.depth := key, name, parent, slot, depth;
      children, byName := [], map[];
    }

    /** Subfolders know their place, and the map has exactly them, by name. */
    ghost predicate Linked()
      reads this
    {
      && (forall i | 0 <= i < |children| && children[i].Sub? :: At(i, children[i].folder))
      && (forall seg | seg in byName ::
            byName[seg].name == seg && byName[seg].slot < |children| && children[byName[seg].slot] == Sub(byName[seg]))
    }

    ghost predicate At(i: nat, g: OpenFolder<T>)
      reads this
    {
      g.parent == this && g.slot == i && g.depth == depth + 1 && g.name in byName && byName[g.name] == g
    }
  }

  /**
   What each folder's children will be once the tag value in hand is placed. Folders the walk has
   not reached, and those it has left, already are so.
   */
  type Trees<!T> = map<OpenFolder<T>, seq<Node<T>>>

  ghost predicate Shown<T>(child: Child<T>, node: Node<T>, trees: Trees<T>) {
    match child
    case Sub(g) => g in trees && node == Folder(g.key, g.name, trees[g])
    case Item(key, tv) => node == Leaf(key, tv)
  }

  /** The children are these nodes. */
  ghost predicate Mirrors<T>(children: seq<Child<T>>, nodes: seq<Node<T>>, trees: Trees<T>) {
    |children| == |nodes| && forall i | 0 <= i < |children| :: Shown(children[i], nodes[i], trees)
  }

  /** Every folder's children are its tree, but for the folder the walk is at, whose children are `now`. */
  ghost predicate Good<T>(trees: Trees<T>, cur: OpenFolder<T>, now: seq<Node<T>>)
    reads trees.Keys
  {
    && cur in trees
    && (forall f | f in trees :: f.Linked())
    && (forall f | f in trees && f != cur :: Mirrors(f.children, trees[f], trees))
    && Mirrors(cur.children, now, trees)
  }

  /** The map finds what a search of the children by name would find. */
  lemma MapFinds<T>(trees: Trees<T>, cur: OpenFolder<T>, now: seq<Node<T>>, seg: string)
    requires cur.Linked() && Mirrors(cur.children, now, trees)
    ensures FindFolder(now, seg) == if seg in cur.byName then Some(cur.byName[seg].slot) else None
  {
    var found := FindFolder(now, seg);
    if seg in cur.byName {
      var i := cur.byName[seg].slot;
      assert Shown(cur.children[i], now[i], trees);
    }
    if found.Some? {
      assert Shown(cur.children[found.value], now[found.value], trees);
      assert cur.At(found.value, cur.children[found.value].folder);
    }
  }

  /** A folder that is no child keeps the children as they are when its tree changes. */
  lemma MirrorsOthers<T>(f: OpenFolder<T>, nodes: seq<Node<T>>, trees: Trees<T>, c: OpenFolder<T>, tree: seq<Node<T>>)
    requires f.Linked() && Mirrors(f.children, nodes, trees) && (c.parent != f || c.depth != f.depth + 1)
    ensures Mirrors(f.children, nodes, trees[c := tree])
  {
    forall i | 0 <= i < |f.children|
      ensures Shown(f.children[i], nodes[i], trees[c := tree])
    {
      assert Shown(f.children[i], nodes[i], trees);
      if f.children[i].Sub? { assert f.At(i, f.children[i].folder); }
    }
  }

  /** When a child's tree changes, its parent's children are the nodes with that one replaced. */
  lemma MirrorsParent<T>(f: OpenFolder<T>, nodes: seq<Node<T>>, trees: Trees<T>, c: OpenFolder<T>, tree: seq<Node<T>>)
    requires f.Linked() && Mirrors(f.children, nodes, trees) && c.slot < |f.children| && f.children[c.slot] == Sub(c)
    ensures Mirrors(f.children, nodes[c.slot := Folder(c.key, c.name, tree)], trees[c := tree])
  {
    var nodes' := nodes[c.slot := Folder(c.key, c.name, tree)];
    forall i | 0 <= i < |f.children|
      ensures Shown(f.children[i], nodes'[i], trees[c := tree])
    {
      assert Shown(f.children[i], nodes[i], trees);
      if f.children[i].Sub? { assert f.At(i, f.children[i].folder); }
    }
  }

  /** Down into a folder that is there: it is now the one whose tree runs ahead of its children. */
  lemma Enter<T>(trees: Trees<T>, cur: OpenFolder<T>, now: seq<Node<T>>, segs: seq<string>, acc: string, leaf: Node<T>)
    returns (trees': Trees<T>)
    requires Good(trees, cur, now) && segs != [] && segs[0] in cur.byName && trees[cur] == Insert(now, segs, acc, leaf)
    ensures var c := cur.byName[segs[0]];
            && c in trees && Good(trees', c, trees[c]) && trees'.Keys == trees.Keys && c != cur
            && trees' == trees[c := Insert(trees[c], segs[1..], Under(acc, segs[0]), leaf)]
  {
    var c := cur.byName[segs[0]];
    MapFinds(trees, cur, now, segs[0]);
    assert Shown(cur.children[c.slot], now[c.slot], trees) && cur.At(c.slot, c);
    var tree := Insert(trees[c], segs[1..], Under(acc, segs[0]), leaf);
    trees' := trees[c := tree];
    MirrorsParent(cur, now, trees, c, tree);
    MirrorsOthers(c, trees[c], trees, c, tree);
    forall f | f in trees && f != cur && f != c
      ensures Mirrors(f.children, trees[f], trees')
    {
      MirrorsOthers(f, trees[f], trees, c, tree);
    }
  }

  lemma MirrorsStill<T>(children: seq<Child<T>>, nodes: seq<Node<T>>, trees: Trees<T>, c: OpenFolder<T>, tree: seq<Node<T>>)
    requires Mirrors(children, nodes, trees) && c !in trees
    ensures Mirrors(children, nodes, trees[c := tree])
  {
    forall i | 0 <= i < |children|
      ensures Shown(children[i], nodes[i], trees[c := tree])
    {
      assert Shown(children[i], nodes[i], trees);
    }
  }

  lemma MirrorsMore<T>(children: seq<Child<T>>, nodes: seq<Node<T>>, trees: Trees<T>, child: Child<T>, node: Node<T>)
    requires Mirrors(children, nodes, trees) && Shown(child, node, trees)
    ensures Mirrors(children + [child], nodes + [node], trees)
  {
    forall i | 0 <= i < |children + [child]|
      ensures Shown((children + [child])[i], (nodes + [node])[i], trees)
    {
      if i < |children| { assert Shown(children[i], nodes[i], trees); }
    }
  }

  /** A folder that is missing is made, empty, and put in the list and the map. */
  method MakeFolder<T>(cur: OpenFolder<T>, key: string, seg: string, ghost trees: Trees<T>, ghost now: seq<Node<T>>)
    returns (folder: OpenFolder<T>)
    requires Good(trees, cur, now) && seg !in cur.byName
    modifies cur
    ensures fresh(folder) && folder.parent == cur && folder.depth == cur.depth + 1
    ensures folder.key == key && folder.name == seg && folder.children == [] && folder.Linked()
    ensures cur.children == old(cur.children) + [Sub(folder)] && cur.Linked()
    ensures cur.byName == old(cur.byName)[seg := folder]
  {
    assert cur.Linked();
    folder := new OpenFolder(key, seg, cur, |cur.children|, cur.depth + 1);
    ghost var before := cur.children;
    cur.byName := cur.byName[seg := folder];
    cur.children := cur.children + [Sub(folder)];
    forall i | 0 <= i < |cur.children| && cur.children[i].Sub?
      ensures cur.At(i, cur.children[i].folder)
    {
      if i < |before| {
        assert old(cur.At(i, before[i].folder));
      }
    }
  }

  /** One turn of the walk: into the subfolder, made first if it is missing. */
  method Descend<T>(cur: OpenFolder<T>, key: string, seg: string, ghost trees: Trees<T>, ghost now: seq<Node<T>>,
                    ghost segs: seq<string>, ghost acc: string, ghost leaf: Node<T>)
    returns (next: OpenFolder<T>, ghost trees': Trees<T>, ghost now': seq<Node<T>>)
    requires Good(trees, cur, now) && trees[cur] == Insert(now, segs, acc, leaf)
    requires segs != [] && segs[0] == seg && key == Under(acc, seg)
    modifies cur
    ensures Good(trees', next, now') && trees'[next] == Insert(now', segs[1..], key, leaf)
    ensures next.depth == cur.depth + 1 && forall f | f in trees && f != next :: f in trees' && trees'[f] == trees[f]
    ensures fresh(trees'.Keys - trees.Keys)
  {
    MapFinds(trees, cur, now, seg);
    if seg !in cur.byName {
      var folder := MakeFolder(cur, key, seg, trees, now);
      ghost var tree := Insert([], segs[1..], key, leaf);
      trees', now' := trees[folder := tree], [];
      MirrorsStill(old(cur.children), now, trees, folder, tree);
      MirrorsMore(old(cur.children), now, trees', Sub(folder), Folder(key, seg, tree));
      forall f | f in trees && f != cur
        ensures f.Linked() && Mirrors(f.children, trees[f], trees')
      {
        MirrorsStill(f.children, trees[f], trees, folder, tree);
      }
    } else {
      trees' := Enter(trees, cur, now, segs, acc, leaf);
      now' := trees[cur.byName[seg]];
      assert cur.At(cur.byName[seg].slot, cur.byName[seg]);
    }
    next := cur.byName[seg];
  }

  /** Every folder's children are its tree. */
  ghost predicate Settled<T>(trees: Trees<T>)
    reads trees.Keys
  {
    forall f | f in trees :: f.Linked() && Mirrors(f.children, trees[f], trees)
  }

  lemma StartWalk<T>(trees: Trees<T>, root: OpenFolder<T>, tree: seq<Node<T>>)
    requires Settled(trees) && root in trees && root.parent == null
    ensures Good(trees[root := tree], root, trees[root])
  {
    forall f | f in trees
      ensures Mirrors(f.children, trees[f], trees[root := tree])
    {
      MirrorsOthers(f, trees[f], trees, root, tree);
    }
  }

  /** A new leaf at the end of the folder's children. */
  method AddLeaf<T>(cur: OpenFolder<T>, key: string, tv: T, ghost trees: Trees<T>, ghost now: seq<Node<T>>)
    requires Good(trees, cur, now) && trees[cur] == now + [Leaf(key, tv)]
    modifies cur
    ensures Settled(trees)
  {
    assert cur.Linked();
    MirrorsMore(cur.children, now, trees, Item(key, tv), Leaf(key, tv));
    ghost var before := cur.children;
    cur.children := cur.children + [Item(key, tv)];
    forall i | 0 <= i < |cur.children| && cur.children[i].Sub?
      ensures cur.At(i, cur.children[i].folder)
    {
      assert old(cur.At(i, before[i].folder));
    }
    assert cur.Linked();
  }

  /** One tag value finds its folder and becomes a leaf of it. */
  method PlaceTag<T>(root: OpenFolder<TagValue<T>>, tv: TagValue<T>, ghost trees: Trees<TagValue<T>>)
    returns (ghost trees': Trees<TagValue<T>>)
    requires Settled(trees) && root in trees && root.parent == null && root.depth == 0
    modifies trees.Keys
    ensures Settled(trees') && root in trees' && fresh(trees'.Keys - trees.Keys)
    ensures trees'[root] == Insert(trees[root], ByPath()(tv), "", LeafOf(tv))
  {
    var segs := FolderSegments(tv);
    ghost var leaf := LeafOf(tv);
    ghost var tree, now := Insert(trees[root], segs, "", leaf), trees[root];
    StartWalk(trees, root, tree);
    trees' := trees[root := tree];
    var cur, acc := root, "";
    assert segs[0..] == segs;
    for k := 0 to |segs|
      invariant Good(trees', cur, now) && trees'[cur] == Insert(now, segs[k..], acc, leaf)
      invariant root in trees' && trees'[root] == tree && cur.depth == k
      invariant fresh(trees'.Keys - trees.Keys)
    {
      var key := if acc != "" then acc + "/" + segs[k] else segs[k];
      assert segs[k..][1..] == segs[k + 1..];
      cur, trees', now := Descend(cur, key, segs[k], trees', now, segs[k..], acc, leaf);
      acc := key;
    }
    AddLeaf(cur, "tag:" + tv.id, tv, trees', now);
  }

  /** strip: the nodes without their maps. */
  method Strip<T>(f: OpenFolder<T>, ghost trees: Trees<T>) returns (nodes: seq<Node<T>>)
    requires Settled(trees) && f in trees
    ensures nodes == trees[f]
    decreases trees[f]
  {
    nodes := [];
    for i := 0 to |f.children|
      invariant nodes == trees[f][..i]
    {
      assert Shown(f.children[i], trees[f][i], trees);
      match f.children[i] {
        case Item(key, tv) => nodes := nodes + [Leaf(key, tv)];
        case Sub(g) =>
          assert trees[f][i].children == trees[g];
          var children := Strip(g, trees);
          nodes := nodes + [Folder(g.key, g.name, children)];
      }
    }
  }

  /** The tree is the one that inserting the tag values one after another gives. */
  method BuildTagTree<T>(tagValues: seq<TagValue<T>>) returns (forest: seq<Node<TagValue<T>>>)
    ensures forest == Built(tagValues, ByPath())
  {
    var root := new OpenFolder<TagValue<T>>("", "", null, 0, 0);
    ghost var trees: Trees<TagValue<T>> := map[root := []];
    for c := 0 to |tagValues|
      invariant Settled(trees) && root in trees && trees[root] == Built(tagValues[..c], ByPath()) && fresh(trees.Keys)
    {
      BuiltNext(tagValues, ByPath(), c);
      trees := PlaceTag(root, tagValues[c], trees);
    }
    assert tagValues[..|tagValues|] == tagValues;
    forest := Strip(root, trees);
  }
}
