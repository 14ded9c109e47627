/**
 Where a tag value belongs when it has no path of its own, and what the nodes of the built tree are
 keyed by.
 */
module TagTreePlaces {
  import opened Wrappers
  import opened Text
  import opened TagTree

  // ---- the fallback folder ------------------------------------------------------------------

  lemma {:induction false} LowerPointwise(s: string)
    ensures |Lower(s)| == |s| && forall i | 0 <= i < |s| :: Lower(s)[i] == LowerChar(s[i])
  {
    if s != "" {
      LowerPointwise(s[..|s| - 1]);
    }
  }

  lemma FoldedPrefix(s: string, prefix: string)
    ensures StartsWithFold(s, prefix) <==> |prefix| <= |s| && Lower(s[..|prefix|]) == prefix
  {
    if |prefix| <= |s| {
      LowerPointwise(s[..|prefix|]);
    }
  }

  lemma NotPlainHttp(s: string, scheme: string)
    requires |scheme| == 12 <= |s| && s[..12] == scheme && Lower(scheme) == "nsu=https://"
    ensures !StartsWithFold(s, "nsu=http://")
  {
    var https, http := "nsu=https://", "nsu=http://";
    LowerPointwise(scheme);
    assert https[8] == 's' && http[8] == ':';
    assert s[8] == scheme[8] && LowerChar(scheme[8]) == https[8];
  }

  /** The name after the scheme of a namespace URI, up to the first semicolon, in whatever case the scheme is written. */
  lemma FallbackIsTheName(scheme: string, name: string, rest: string)
    requires Lower(scheme) == "nsu=http://" || Lower(scheme) == "nsu=https://"
    requires ';' !in name && (rest == "" || rest[0] == ';')
    ensures PathFromNodeId(scheme + name + rest) == name
  {
    var s := scheme + name + rest;
    LowerPointwise(scheme);
    assert s[..|scheme|] == scheme && s[|scheme|..] == name + rest;
    FoldedPrefix(s, Lower(scheme));
    if Lower(scheme) == "nsu=https://" {
      NotPlainHttp(s, scheme);
    }
    if rest == "" {
      assert name + rest == name;
      SplitOfConcat(name, ';', "");
    } else {
      assert name + rest == name + [';'] + rest[1..];
      SplitOfConcat(name, ';', rest[1..]);
    }
  }

  /** Any other node id has no fallback. */
  lemma OthersHaveNoFallback(nodeId: string)
    requires !(|nodeId| >= 11 && Lower(nodeId[..11]) == "nsu=http://")
    requires !(|nodeId| >= 12 && Lower(nodeId[..12]) == "nsu=https://")
    ensures PathFromNodeId(nodeId) == ""
  {
    FoldedPrefix(nodeId, "nsu=http://");
    FoldedPrefix(nodeId, "nsu=https://");
  }

  /** A tag value belongs where its path says; one whose path has no segments where its namespace name says. */
  lemma PlacesMean<T>(tv: TagValue<T>, scheme: string, name: string, rest: string)
    requires tv.nodeId == scheme + name + rest && ';' !in name && (rest == "" || rest[0] == ';')
    requires Lower(scheme) == "nsu=http://" || Lower(scheme) == "nsu=https://"
    ensures ByPath()(tv) == if Segs(tv.path) != [] then Segs(tv.path) else Segs(name)
  {
    FallbackIsTheName(scheme, name, rest);
  }

  // ---- keys ------------------------------------------------------------------------------------

  /** Every leaf is keyed by its tag's id. */
  ghost predicate LeavesKeyed<T>(nodes: seq<Node<TagValue<T>>>)
    decreases nodes
  {
    forall i | 0 <= i < |nodes| ::
      match nodes[i]
      case Leaf(key, tv) => key == "tag:" + tv.id
      case Folder(_, _, children) => LeavesKeyed(children)
  }

  lemma {:induction false} InsertKeepsKeys<T>(nodes: seq<Node<TagValue<T>>>, segs: seq<string>, acc: string, tv: TagValue<T>)
    requires LeavesKeyed(nodes)
    ensures LeavesKeyed(Insert(nodes, segs, acc, LeafOf(tv)))
    decreases |segs|
  {
    if segs != [] {
      var key := Under(acc, segs[0]);
      match FindFolder(nodes, segs[0]) {
        case None => InsertKeepsKeys([], segs[1..], key, tv);
        case Some(i) => InsertKeepsKeys(nodes[i].children, segs[1..], key, tv);
      }
    }
  }

  lemma {:induction false} LeavesAreKeyedById<T>(tvs: seq<TagValue<T>>, place: Placing<T>)
    ensures LeavesKeyed(Built(tvs, place))
  {
    if tvs != [] {
      var n := |tvs| - 1;
      LeavesAreKeyedById(tvs[..n], place);
      InsertKeepsKeys(Built(tvs[..n], place), place(tvs[n]), "", tvs[n]);
    }
  }

  /** The folder found by following these names down from the top. */
  function FolderAt<T>(nodes: seq<Node<T>>, path: seq<string>): Option<Node<T>>
    decreases |path|
  {
    if path == [] then None
    else
      match FindFolder(nodes, path[0])
      case None => None
      case Some(i) => if |path| == 1 then Some(nodes[i]) else FolderAt(nodes[i].children, path[1..])
  }

  lemma {:induction false} KeyIsJoined<T>(nodes: seq<Node<T>>, acc: string, path: seq<string>)
    requires Shaped(nodes, acc) && path != [] && forall i | 0 <= i < |path| :: path[i] != ""
    requires FolderAt(nodes, path).Some?
    ensures var f := FolderAt(nodes, path).value;
            f.Folder? && f.name == path[|path| - 1]
            && f.key == if acc == "" then Join(path, '/') else acc + "/" + Join(path, '/')
    decreases |path|
  {
    var i := FindFolder(nodes, path[0]).value;
    assert nodes[i].key == Under(acc, path[0]);
    if |path| > 1 {
      KeyIsJoined(nodes[i].children, nodes[i].key, path[1..]);
      assert Join(path, '/') == path[0] + "/" + Join(path[1..], '/');
    }
  }

  /** A folder of the built tree is keyed by the names that lead to it, joined with slashes. */
  lemma FoldersAreKeyedByPath<T>(tvs: seq<TagValue<T>>, place: Placing<T>, path: seq<string>)
    requires path != [] && forall i | 0 <= i < |path| :: path[i] != ""
    ensures var f := FolderAt(Built(tvs, place), path);
            f.Some? ==> f.value.Folder? && f.value.name == path[|path| - 1] && f.value.key == Join(path, '/')
  {
    TreesAreShaped(tvs, place);
    if FolderAt(Built(tvs, place), path).Some? {
      KeyIsJoined(Built(tvs, place), "", path);
    }
  }
}
