/**
 Browsing an OPC UA server: pages fetched with continuation points, and many nodes browsed in
 requests of at most forty.
 */
module Browse {
  import opened Wrappers

  const EXPAND_BROWSE_BATCH := 40

  datatype NodeClass = Object | Variable | OtherClass

  /** A reference description; Broken is a nil one or one without a node id. */
  datatype Ref = Broken | Ref(target: string, name: string, kind: NodeClass)

  /** One page as the server answers it: absent, with a bad status, or good. */
  datatype Page = NilPage | BadPage | GoodPage(refs: seq<Ref>)

  /** How many nodes a server takes in one request: forty at least. */
  type Capacity = n: nat | n >= 40 witness 40

  /** The pages a server has for each node; Browse gives the first, BrowseNext the others. */
  datatype Server = Server(pages: string -> seq<Page>, capacity: Capacity)

  /** A continuation point names the page to go on with. */
  datatype Point = Point(node: string, page: nat)

  datatype Answer = Nil | Bad | Got(refs: seq<Ref>, more: Option<Point>)

  function Reply(server: Server, point: Point): Answer {
    var pages := server.pages(point.node);
    if point.page >= |pages| then Nil
    else
      match pages[point.page]
      case NilPage => Nil
      case BadPage => Bad
      case GoodPage(refs) => Got(refs, if point.page + 1 < |pages| then Some(Point(point.node, point.page + 1)) else None)
  }

  /** One node's references, asked for one page at a time: the reference result. */
  function AllRefs(pages: seq<Page>): Result<seq<Ref>> {
    if pages == [] || pages[0].NilPage? then Ok([])
    else if pages[0].BadPage? then Err
    else
      match AllRefs(pages[1..])
      case Err => Err
      case Ok(rest) => Ok(pages[0].refs + rest)
  }

  function Refs(server: Server, node: string): Result<seq<Ref>> {
    AllRefs(server.pages(node))
  }

  /** Against a server without errors this is the concatenation of the pages. */
  function Concat(pages: seq<Page>): seq<Ref>
    requires forall p | p in pages :: p.GoodPage?
  {
    if pages == [] then [] else pages[0].refs + Concat(pages[1..])
  }

  lemma {:induction false} AllRefsIsConcat(pages: seq<Page>)
    requires forall p | p in pages :: p.GoodPage?
    ensures AllRefs(pages) == Ok(Concat(pages))
  {
    if pages != [] {
      assert pages[0] in pages;
      AllRefsIsConcat(pages[1..]);
    }
  }

  /** A bad page is an error exactly if it is reached: before any absent page. */
  lemma {:induction false} BadPageIsError(pages: seq<Page>)
    ensures AllRefs(pages).Err? <==> exists k | 0 <= k < |pages| :: pages[k].BadPage? && AllGood(pages[..k])
  {
    forall k | 0 < k <= |pages| && AllGood(pages[..k]) ensures pages[0].GoodPage? {
      FirstIsGood(pages, k);
    }
    if pages != [] && pages[0].GoodPage? {
      var rest := pages[1..];
      BadPageIsError(rest);
      if AllRefs(pages).Err? {
        var k :| 0 <= k < |rest| && rest[k].BadPage? && AllGood(rest[..k]);
        assert pages[..k + 1] == [pages[0]] + rest[..k] && pages[k + 1].BadPage?;
      }
      if k :| 0 <= k < |pages| && pages[k].BadPage? && AllGood(pages[..k]) {
        assert rest[k - 1] == pages[k] && rest[..k - 1] == pages[..k][1..];
      }
    } else if pages != [] && pages[0].BadPage? {
      assert AllGood(pages[..0]);
    }
  }

  lemma FirstIsGood(pages: seq<Page>, k: nat)
    requires 0 < k <= |pages| && AllGood(pages[..k])
    ensures pages[0].GoodPage?
  {
    assert pages[..k][0] == pages[0];
  }

  predicate AllGood(pages: seq<Page>) {
    forall i | 0 <= i < |pages| :: pages[i].GoodPage?
  }

  /** An absent page ends the references without an error. */
  lemma {:induction false} NilPageEnds(good: seq<Page>, more: seq<Page>)
    requires AllGood(good)
    ensures AllRefs(good + [NilPage] + more) == AllRefs(good)
  {
    if good == [] {
      assert (good + [NilPage] + more)[0] == NilPage;
    } else {
      NilPageEnds(good[1..], more);
      assert (good + [NilPage] + more)[1..] == good[1..] + [NilPage] + more;
    }
  }

  function Prepend(all: seq<Ref>, rest: Result<seq<Ref>>): Result<seq<Ref>> {
    if rest.Ok? then Ok(all + rest.value) else Err
  }

  lemma PrependNext(all: seq<Ref>, pages: seq<Page>, k: nat)
    requires k < |pages| && pages[k].GoodPage?
    ensures Prepend(all, AllRefs(pages[k..])) == Prepend(all + pages[k].refs, AllRefs(pages[k + 1..]))
  {
    assert pages[k..][1..] == pages[k + 1..];
    var rest := AllRefs(pages[k + 1..]);
    if rest.Ok? {
      assert all + (pages[k].refs + rest.value) == (all + pages[k].refs) + rest.value;
    }
  }

  /** Drains the continuation points of one node. */
  method DrainPages(server: Server, node: string, first: Answer) returns (r: Result<seq<Ref>>)
    requires first == Reply(server, Point(node, 0))
    ensures r == Refs(server, node)
  {
    var pages := server.pages(node);
    match first {
      case Nil => r := Ok([]);
      case Bad => r := Err;
      case Got(refs, more) =>
        var all, cp := refs, more;
        ghost var k := 1;
        assert pages == pages[0..] && [] + refs == refs && Prepend([], AllRefs(pages)) == AllRefs(pages) by {
          assert AllRefs(pages).Ok? ==> [] + AllRefs(pages).value == AllRefs(pages).value;
        }
        PrependNext([], pages, 0);
        while cp.Some?
          invariant 1 <= k <= |pages| && (cp.Some? ==> cp.value == Point(node, k) && k < |pages|)
          invariant cp.None? ==> k == |pages|
          invariant AllRefs(pages) == Prepend(all, AllRefs(pages[k..]))
          decreases |pages| - k
        {
          var next := Reply(server, cp.value);
          match next {
            case Nil => break;
            case Bad => return Err;
            case Got(refs, more) =>
              PrependNext(all, pages, k);
              all, cp := all + refs, more;
              k := k + 1;
          }
        }
        assert all + [] == all;
        r := Ok(all);
    }
  }

  ghost predicate SlotsAre(server: Server, nodes: seq<string>, r: Result<seq<seq<Ref>>>) {
    && (r.Ok? <==> forall i | 0 <= i < |nodes| :: Refs(server, nodes[i]).Ok?)
    && (r.Ok? ==> |r.value| == |nodes| && forall i | 0 <= i < |nodes| :: Refs(server, nodes[i]) == Ok(r.value[i]))
  }

  /** One Browse request: one result per node, or an error when there are too many for the server. */
  function Request(server: Server, nodes: seq<string>): Result<seq<Answer>> {
    if |nodes| > server.capacity then Err
    else Ok(seq(|nodes|, i requires 0 <= i < |nodes| => Reply(server, Point(nodes[i], 0))))
  }

  method BrowseManyReferences(server: Server, nodes: seq<string>) returns (r: Result<seq<seq<Ref>>>)
    ensures if |nodes| <= server.capacity then SlotsAre(server, nodes, r) else r.Err?
  {
    var response := Request(server, nodes);
    if response.Err? {
      return Err;
    }
    var results := response.value;
    var out := new seq<Ref>[|nodes|](_ => []);
    for i := 0 to |nodes|
      invariant forall j | 0 <= j < i :: Refs(server, nodes[j]) == Ok(out[j])
    {
      var all := DrainPages(server, nodes[i], results[i]);
      if all.Err? {
        return Err;
      }
      out[i] := all.value;
    }
    r := Ok(out[..]);
  }

  /** Any number of nodes, in requests that every server takes. */
  method BrowseRefsMulti(server: Server, nodes: seq<string>) returns (r: Result<seq<seq<Ref>>>)
    ensures SlotsAre(server, nodes, r)
  {
    var out := new seq<Ref>[|nodes|](_ => []);
    var i := 0;
    while i < |nodes|
      invariant 0 <= i
      invariant forall j | 0 <= j < i && j < |nodes| :: Refs(server, nodes[j]) == Ok(out[j])
    {
      var end := i + EXPAND_BROWSE_BATCH;
      if end > |nodes| {
        end := |nodes|;
      }
      var batch := BrowseManyReferences(server, nodes[i..end]);
      if batch.Err? {
        assert forall j | 0 <= j < end - i :: nodes[i..end][j] == nodes[i + j];
        return Err;
      }
      for j := i to end
        invariant forall m | 0 <= m < j :: Refs(server, nodes[m]) == Ok(out[m])
      {
        assert nodes[i..end][j - i] == nodes[j];
        out[j] := batch.value[j - i];
      }
      i := i + EXPAND_BROWSE_BATCH;
    }
    r := Ok(out[..]);
  }
}
