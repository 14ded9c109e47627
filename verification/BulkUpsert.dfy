/** Many tags upserted by one request: deduplication, type checks, and one merge into the store. */
module BulkUpsert {
  import opened Wrappers
  import opened Core
  import opened TagLists
  import ConfigStore
  import DeviceSlices

  /** Trimming, the rules for tags, and the data type that tag i of a list gets from the device. */
  datatype Setup = Setup(trim: string -> string, rules: Rules, resolve: (seq<Tag>, nat) -> string)

  datatype Verdict = Kept | Missing | BadNode | SameNode(keptId: string) | SameId(keptNode: string)

  datatype Fault = Refused(index: nat, why: Verdict) | BadType(id: string)

  function IdOfNode(clean: seq<Tag>, nodeId: string): Option<string> {
    if clean == [] then None
    else
      var t := clean[|clean| - 1];
      if t.nodeId == nodeId then Some(t.id) else IdOfNode(clean[..|clean| - 1], nodeId)
  }

  function NodeOfId(clean: seq<Tag>, id: string): Option<string> {
    if clean == [] then None
    else
      var t := clean[|clean| - 1];
      if t.id == id then Some(t.nodeId) else NodeOfId(clean[..|clean| - 1], id)
  }

  function Trimmed(t: Tag, setup: Setup): Tag {
    t.(id := setup.trim(t.id), nodeId := setup.trim(t.nodeId))
  }

  /** What happens to a trimmed tag when the tags in `clean` were kept before it. */
  function Judge(clean: seq<Tag>, t: Tag, rules: Rules): Verdict {
    if t.id == "" || t.nodeId == "" then Missing
    else if !rules.parses(t.nodeId) then BadNode
    else
      match IdOfNode(clean, t.nodeId)
      case Some(prevId) => SameNode(prevId)
      case None =>
        match NodeOfId(clean, t.id)
        case Some(prevNode) => if prevNode != t.nodeId then SameId(prevNode) else Kept
        case None => Kept
  }

  function Cleaned(body: seq<Tag>, setup: Setup): seq<Tag> {
    if body == [] then []
    else
      var clean := Cleaned(body[..|body| - 1], setup);
      var t := Trimmed(body[|body| - 1], setup);
      if Judge(clean, t, setup.rules) == Kept then clean + [t.(datatyp := setup.rules.norm(t.datatyp))] else clean
  }

  /** How many tags were skipped as duplicates, and how many were refused. */
  function Tally(body: seq<Tag>, setup: Setup): (r: (nat, nat))
    ensures r.0 + r.1 + |Cleaned(body, setup)| == |body|
  {
    if body == [] then (0, 0)
    else
      var (skipped, refused) := Tally(body[..|body| - 1], setup);
      match Judge(Cleaned(body[..|body| - 1], setup), Trimmed(body[|body| - 1], setup), setup.rules)
      case Kept => (skipped, refused)
      case SameNode(_) => (skipped + 1, refused)
      case SameId(_) => (skipped + 1, refused)
      case _ => (skipped, refused + 1)
  }

  function Resolved(clean: seq<Tag>, setup: Setup): (r: seq<Tag>)
    ensures |r| == |clean|
    ensures forall i | 0 <= i < |clean| :: r[i] == WithType(clean, i, setup)
  {
    seq(|clean|, i requires 0 <= i < |clean| => WithType(clean, i, setup))
  }

  function ValidOnes(ts: seq<Tag>, rules: Rules): (r: seq<Tag>)
    ensures |r| <= |ts|
  {
    if ts == [] then []
    else
      var n := |ts| - 1;
      match Validated(ts[n], rules)
      case Some(t) => ValidOnes(ts[..n], rules) + [t]
      case None => ValidOnes(ts[..n], rules)
  }

  /** The tags handed to the store. */
  function Written(body: seq<Tag>, setup: Setup): seq<Tag> {
    ValidOnes(Resolved(Cleaned(body, setup), setup), setup.rules)
  }

  // ---- the handler -------------------------------------------------------------

  /** The two maps of the loop say which ids and nodes the kept tags have. */
  ghost predicate Recorded(seenNode: map<string, string>, seenId: map<string, string>, clean: seq<Tag>) {
    && (forall n :: if n in seenNode then IdOfNode(clean, n) == Some(seenNode[n]) else IdOfNode(clean, n) == None)
    && (forall d :: if d in seenId then NodeOfId(clean, d) == Some(seenId[d]) else NodeOfId(clean, d) == None)
  }

  lemma RecordedAfterKeep(seenNode: map<string, string>, seenId: map<string, string>, clean: seq<Tag>, t: Tag)
    requires Recorded(seenNode, seenId, clean)
    ensures Recorded(seenNode[t.nodeId := t.id], seenId[t.id := t.nodeId], clean + [t])
  {
    assert (clean + [t])[..|clean|] == clean;
  }

  method JudgeSeen(seenNode: map<string, string>, seenId: map<string, string>, t: Tag, rules: Rules, ghost clean: seq<Tag>)
    returns (v: Verdict)
    requires Recorded(seenNode, seenId, clean)
    ensures v == Judge(clean, t, rules)
  {
    if t.id == "" || t.nodeId == "" {
      return Missing;
    }
    if !rules.parses(t.nodeId) {
      return BadNode;
    }
    if t.nodeId in seenNode {
      return SameNode(seenNode[t.nodeId]);
    }
    if t.id in seenId && seenId[t.id] != t.nodeId {
      return SameId(seenId[t.id]);
    }
    return Kept;
  }

  /** A duplicate of the same id and node is skipped silently; everything else not kept is reported. */
  predicate Reported(v: Verdict, id: string) {
    match v
    case Kept => false
    case SameNode(keptId) => keptId != id
    case _ => true
  }

  /** The messages of the deduplication, in order. */
  function FaultsOf(body: seq<Tag>, setup: Setup): seq<Fault> {
    if body == [] then []
    else
      var n := |body| - 1;
      var t := Trimmed(body[n], setup);
      var v := Judge(Cleaned(body[..n], setup), t, setup.rules);
      if Reported(v, t.id) then FaultsOf(body[..n], setup) + [Refused(n, v)] else FaultsOf(body[..n], setup)
  }

  lemma NextTag(body: seq<Tag>, i: nat, setup: Setup)
    requires i < |body|
    ensures var clean, t := Cleaned(body[..i], setup), Trimmed(body[i], setup);
            var v := Judge(clean, t, setup.rules);
            && Cleaned(body[..i + 1], setup) ==
               (if v.Kept? then clean + [t.(datatyp := setup.rules.norm(t.datatyp))] else clean)
            && Tally(body[..i + 1], setup).0 == Tally(body[..i], setup).0 + (if v.SameNode? || v.SameId? then 1 else 0)
            && FaultsOf(body[..i + 1], setup) ==
               if Reported(v, t.id) then FaultsOf(body[..i], setup) + [Refused(i, v)] else FaultsOf(body[..i], setup)
  {
    assert body[..i + 1][..i] == body[..i];
  }

  method Deduplicate(body: seq<Tag>, setup: Setup) returns (clean: seq<Tag>, faults: seq<Fault>, skipped: nat)
    ensures clean == Cleaned(body, setup) && skipped == Tally(body, setup).0 && faults == FaultsOf(body, setup)
  {
    var seenNode: map<string, string>, seenId: map<string, string> := map[], map[];
    clean, faults, skipped := [], [], 0;
    for i := 0 to |body|
      invariant clean == Cleaned(body[..i], setup) && Recorded(seenNode, seenId, clean)
      invariant skipped == Tally(body[..i], setup).0 && faults == FaultsOf(body[..i], setup)
    {
      NextTag(body, i, setup);
      var t := Trimmed(body[i], setup);
      var v := JudgeSeen(seenNode, seenId, t, setup.rules, clean);
      if Reported(v, t.id) {
        faults := faults + [Refused(i, v)];
      }
      if v.SameNode? || v.SameId? {
        skipped := skipped + 1;
      }
      if v.Kept? {
        t := t.(datatyp := setup.rules.norm(t.datatyp));
        RecordedAfterKeep(seenNode, seenId, clean, t);
        seenNode, seenId := seenNode[t.nodeId := t.id], seenId[t.id := t.nodeId];
        clean := clean + [t];
      }
    }
    assert body[..|body|] == body;
  }

  /**
   A message names exactly one tag and says why it was not kept: there is one for tag i if and only
   if it was refused, or skipped as a duplicate that is not an exact repetition.
   */
  lemma {:induction false} RefusalsAreReported(body: seq<Tag>, setup: Setup, i: nat, v: Verdict)
    ensures Refused(i, v) in FaultsOf(body, setup) <==>
            && i < |body| && v == Judge(Cleaned(body[..i], setup), Trimmed(body[i], setup), setup.rules)
            && Reported(v, Trimmed(body[i], setup).id)
  {
    if body != [] {
      var n := |body| - 1;
      RefusalsAreReported(body[..n], setup, i, v);
      var _, _ := FaultsNext(body, setup);
      if i < n {
        assert body[..n][..i] == body[..i] && body[..n][i] == body[i];
      }
    }
  }

  lemma FaultsNext(body: seq<Tag>, setup: Setup) returns (t: Tag, v: Verdict)
    requires body != []
    ensures var n := |body| - 1;
            && t == Trimmed(body[n], setup) && v == Judge(Cleaned(body[..n], setup), t, setup.rules)
            && FaultsOf(body, setup) == FaultsOf(body[..n], setup) + if Reported(v, t.id) then [Refused(n, v)] else []
  {
    t := Trimmed(body[|body| - 1], setup);
    v := Judge(Cleaned(body[..|body| - 1], setup), t, setup.rules);
  }

  /** The messages of the second loop, in order. */
  function TypeFaults(ts: seq<Tag>, rules: Rules): (r: seq<Fault>)
    ensures |r| + |ValidOnes(ts, rules)| == |ts|
  {
    if ts == [] then []
    else
      var n := |ts| - 1;
      TypeFaults(ts[..n], rules) + if Validated(ts[n], rules).Some? then [] else [BadType(ts[n].id)]
  }

  lemma {:induction false} InvalidIsNamed(ts: seq<Tag>, rules: Rules, i: nat)
    requires i < |ts| && Validated(ts[i], rules).None?
    ensures BadType(ts[i].id) in TypeFaults(ts, rules)
  {
    if i < |ts| - 1 {
      InvalidIsNamed(ts[..|ts| - 1], rules, i);
    }
  }

  lemma {:induction false} NamedIsInvalid(ts: seq<Tag>, rules: Rules, f: Fault) returns (i: nat)
    requires f in TypeFaults(ts, rules)
    ensures i < |ts| && f == BadType(ts[i].id) && Validated(ts[i], rules).None?
  {
    i := |ts| - 1;
    if f in TypeFaults(ts[..i], rules) {
      i := NamedIsInvalid(ts[..i], rules, f);
    }
  }

  /** Those messages name exactly the tags that are not written. */
  lemma TypeFaultsNameTheInvalid(ts: seq<Tag>, rules: Rules, f: Fault)
    ensures f in TypeFaults(ts, rules) <==> exists i | 0 <= i < |ts| :: f == BadType(ts[i].id) && Validated(ts[i], rules).None?
  {
    if f in TypeFaults(ts, rules) {
      var i := NamedIsInvalid(ts, rules, f);
    } else if i :| 0 <= i < |ts| && f == BadType(ts[i].id) && Validated(ts[i], rules).None? {
      InvalidIsNamed(ts, rules, i);
    }
  }

  method Validate(clean: seq<Tag>, rules: Rules) returns (validated: seq<Tag>, faults: seq<Fault>)
    ensures validated == ValidOnes(clean, rules) && faults == TypeFaults(clean, rules)
  {
    validated, faults := [], [];
    for i := 0 to |clean|
      invariant validated == ValidOnes(clean[..i], rules) && faults == TypeFaults(clean[..i], rules)
    {
      assert clean[..i + 1][..i] == clean[..i];
      var t := Validated(clean[i], rules);
      if t.None? {
        faults := faults + [BadType(clean[i].id)];
        continue;
      }
      validated := validated + [t.value];
    }
    assert clean[..|clean|] == clean;
  }

  /** Every submitted tag is written, skipped as a duplicate, or refused. */
  method HandleBulkUpsert(store: ConfigStore.Store, deviceId: string, body: seq<Tag>, setup: Setup, saveOk: bool)
    returns (added: nat, updated: nat, skipped: nat, faults: seq<Fault>, ghost refused: nat, err: ConfigStore.Error)
    requires store.Valid()
    modifies store, store.arr, store.Footprint()
    ensures store.Valid()
    ensures DeviceSlices.FindDevice(old(store.devices), deviceId).None? ==> err == ConfigStore.DeviceNotFound
    ensures DeviceSlices.FindDevice(old(store.devices), deviceId).Some? ==>
      var k := DeviceSlices.FindDevice(old(store.devices), deviceId).value;
      && store.OnlyTagsOf(k) && store.Tags(k) == Merged(old(store.Tags(k)), Written(body, setup))
      && (err == ConfigStore.NoError <==> saveOk)
    ensures faults == FaultsOf(body, setup) + TypeFaults(Resolved(Cleaned(body, setup), setup), setup.rules)
    ensures err == ConfigStore.NoError ==>
      && added + updated == |Written(body, setup)|
      && skipped == Tally(body, setup).0
      && |body| == (added + updated) + skipped + refused
      && refused == Tally(body, setup).1 + |Cleaned(body, setup)| - |Written(body, setup)|
  {
    var validated;
    validated, faults, skipped, refused := Prepare(body, setup);
    added, updated, err := store.MergeTags(deviceId, validated, false, saveOk);
  }

  /** What is left of a request's tags for the store. */
  method Prepare(body: seq<Tag>, setup: Setup)
    returns (validated: seq<Tag>, faults: seq<Fault>, skipped: nat, ghost refused: nat)
    ensures validated == Written(body, setup) && skipped == Tally(body, setup).0
    ensures faults == FaultsOf(body, setup) + TypeFaults(Resolved(Cleaned(body, setup), setup), setup.rules)
    ensures refused == Tally(body, setup).1 + |Cleaned(body, setup)| - |validated|
    ensures |body| == |validated| + skipped + refused
  {
    var clean;
    clean, faults, skipped := Deduplicate(body, setup);
    var typeFaults;
    validated, typeFaults := Validate(Resolved(clean, setup), setup.rules);
    faults := faults + typeFaults;
    refused := Tally(body, setup).1 + |clean| - |validated|;
  }

  // ---- what the request guarantees ------------------------------------------------

  ghost predicate NodesDiffer(ts: seq<Tag>) {
    forall i, j | 0 <= i < j < |ts| :: ts[i].nodeId != ts[j].nodeId
  }

  lemma {:induction false} LookupsMean(clean: seq<Tag>, nodeId: string, id: string)
    ensures IdOfNode(clean, nodeId).Some? <==> exists i | 0 <= i < |clean| :: clean[i].nodeId == nodeId
    ensures NodeOfId(clean, id).Some? <==> HasId(clean, id)
    ensures NodeOfId(clean, id).Some? ==> IdOfNode(clean, NodeOfId(clean, id).value).Some?
  {
    if clean != [] {
      var n := |clean| - 1;
      LookupsMean(clean[..n], nodeId, id);
      if IdOfNode(clean[..n], nodeId).Some? {
        var i :| 0 <= i < n && clean[..n][i].nodeId == nodeId;
        assert clean[i].nodeId == nodeId;
      }
      if HasId(clean[..n], id) {
        var i :| 0 <= i < n && clean[..n][i].id == id;
        assert clean[i].id == id;
      }
    }
  }

  /** The tag has both ids, and its node id parses. */
  predicate WellFormed(t: Tag, rules: Rules) {
    t.id != "" && t.nodeId != "" && rules.parses(t.nodeId)
  }

  /**
   When a tag is kept and why not: it needs both ids and a node id that parses, a node id no kept tag
   has, and an id no kept tag has.
   */
  lemma JudgeMeans(clean: seq<Tag>, t: Tag, rules: Rules)
    ensures var v := Judge(clean, t, rules);
            var sameNode, sameId := HasNode(clean, t.nodeId), HasId(clean, t.id);
            && (v.Missing? <==> t.id == "" || t.nodeId == "")
            && (v.BadNode? <==> t.id != "" && t.nodeId != "" && !rules.parses(t.nodeId))
            && (v.SameNode? <==> WellFormed(t, rules) && sameNode)
            && (v.SameId? <==> WellFormed(t, rules) && !sameNode && sameId)
            && (v.Kept? <==> WellFormed(t, rules) && !sameNode && !sameId)
            && (v.SameNode? ==> exists c | c in clean :: c.nodeId == t.nodeId && c.id == v.keptId)
            && (v.SameId? ==> exists c | c in clean :: c.id == t.id && c.nodeId == v.keptNode)
  {
    LookupsMean(clean, t.nodeId, t.id);
    LookupsAreThere(clean, t.nodeId, t.id);
  }

  predicate HasNode(clean: seq<Tag>, nodeId: string) {
    exists i | 0 <= i < |clean| :: clean[i].nodeId == nodeId
  }

  lemma {:induction false} LookupsAreThere(clean: seq<Tag>, nodeId: string, id: string)
    ensures IdOfNode(clean, nodeId).Some? ==> exists c | c in clean :: c.nodeId == nodeId && c.id == IdOfNode(clean, nodeId).value
    ensures NodeOfId(clean, id).Some? ==> exists c | c in clean :: c.id == id && c.nodeId == NodeOfId(clean, id).value
  {
    if clean != [] {
      var n := |clean| - 1;
      LookupsAreThere(clean[..n], nodeId, id);
      assert clean[n] in clean && forall c | c in clean[..n] :: c in clean;
    }
  }

  /** Among kept tags, which repeat no node id, a tag gives no message exactly if it is kept or repeats one exactly. */
  lemma SilentIff(clean: seq<Tag>, t: Tag, rules: Rules)
    requires NodesDiffer(clean)
    ensures Reported(Judge(clean, t, rules), t.id) <==>
            !WellFormed(t, rules)
            || ((HasNode(clean, t.nodeId) || HasId(clean, t.id)) && !(exists c | c in clean :: c.id == t.id && c.nodeId == t.nodeId))
  {
    JudgeMeans(clean, t, rules);
    if c :| c in clean && c.id == t.id && c.nodeId == t.nodeId {
      var i :| 0 <= i < |clean| && clean[i] == c;
      if Judge(clean, t, rules).SameNode? {
        var d :| d in clean && d.nodeId == t.nodeId && d.id == Judge(clean, t, rules).keptId;
        var j :| 0 <= j < |clean| && clean[j] == d;
        assert i == j;
      }
    }
  }

  /** Every kept tag is well-formed, and is one of the submitted ones, trimmed and with its type normalised. */
  lemma {:induction false} CleanedAreWellFormed(body: seq<Tag>, setup: Setup, c: Tag) returns (i: nat)
    requires c in Cleaned(body, setup)
    ensures i < |body| && WellFormed(c, setup.rules)
    ensures c == body[i].(id := setup.trim(body[i].id), nodeId := setup.trim(body[i].nodeId),
                          datatyp := setup.rules.norm(body[i].datatyp))
  {
    i := |body| - 1;
    if c in Cleaned(body[..i], setup) {
      i := CleanedAreWellFormed(body[..i], setup, c);
    }
  }

  function Verdicts(body: seq<Tag>, setup: Setup): (r: seq<Verdict>)
    ensures |r| == |body|
  {
    if body == [] then []
    else
      var n := |body| - 1;
      Verdicts(body[..n], setup) + [Judge(Cleaned(body[..n], setup), Trimmed(body[n], setup), setup.rules)]
  }

  /** Skipped are exactly the duplicates, refused exactly the malformed. */
  lemma {:induction false} TallyCounts(body: seq<Tag>, setup: Setup)
    ensures Tally(body, setup).0 == |Hits(Verdicts(body, setup), (v: Verdict) => v.SameNode? || v.SameId?)|
    ensures Tally(body, setup).1 == |Hits(Verdicts(body, setup), (v: Verdict) => v.Missing? || v.BadNode?)|
  {
    if body != [] {
      var n := |body| - 1;
      var v := Judge(Cleaned(body[..n], setup), Trimmed(body[n], setup), setup.rules);
      TallyCounts(body[..n], setup);
      HitsSnoc(Verdicts(body[..n], setup), v, (v: Verdict) => v.SameNode? || v.SameId?);
      HitsSnoc(Verdicts(body[..n], setup), v, (v: Verdict) => v.Missing? || v.BadNode?);
    }
  }

  /** Written are exactly the kept tags that pass the checks, as the checks leave them. */
  lemma {:induction false} ValidOnesMean(ts: seq<Tag>, rules: Rules, x: Tag)
    ensures x in ValidOnes(ts, rules) <==> exists t | t in ts :: Validated(t, rules) == Some(x)
  {
    if ts != [] {
      var n := |ts| - 1;
      ValidOnesMean(ts[..n], rules, x);
      assert ts == ts[..n] + [ts[n]];
    }
  }

  /** More tags add to what was kept and said before, and take nothing back. */
  lemma {:induction false} LaterTagsOnlyAdd(a: seq<Tag>, b: seq<Tag>, setup: Setup)
    ensures Cleaned(a, setup) <= Cleaned(a + b, setup) && FaultsOf(a, setup) <= FaultsOf(a + b, setup)
  {
    if b == [] {
      assert a + b == a;
    } else {
      var n := |b| - 1;
      LaterTagsOnlyAdd(a, b[..n], setup);
      assert (a + b)[..|a + b| - 1] == a + b[..n];
    }
  }

  lemma ConcatInit(a: seq<Tag>, b: seq<Tag>) returns (init: seq<Tag>, last: Tag)
    requires b != []
    ensures b == init + [last] && |init| < |b| && a + b == (a + init) + [last]
  {
    init, last := b[..|b| - 1], b[|b| - 1];
  }

  lemma ValidSnoc(ts: seq<Tag>, t: Tag, rules: Rules)
    ensures ValidOnes(ts + [t], rules) == ValidOnes(ts, rules) + ValidOnes([t], rules)
    ensures TypeFaults(ts + [t], rules) == TypeFaults(ts, rules) + TypeFaults([t], rules)
  {
    assert (ts + [t])[..|ts|] == ts && [t][..0] == [];
  }

  /** What grows by each tag's own share spreads over a concatenation. */
  lemma {:induction false} SharesConcat<T>(f: seq<Tag> -> seq<T>, a: seq<Tag>, b: seq<Tag>)
    requires f([]) == []
    requires forall ts: seq<Tag>, t: Tag :: f(ts + [t]) == f(ts) + f([t])
    ensures f(a + b) == f(a) + f(b)
    decreases |b|
  {
    if b == [] {
      assert a + b == a;
    } else {
      var init, last := ConcatInit(a, b);
      SharesConcat(f, a, init);
      assert f((a + init) + [last]) == f(a + init) + f([last]);
      assert f(init + [last]) == f(init) + f([last]);
    }
  }

  /** The checks go through a list from front to back. */
  lemma ChecksGoInOrder(a: seq<Tag>, b: seq<Tag>, rules: Rules)
    ensures ValidOnes(a + b, rules) == ValidOnes(a, rules) + ValidOnes(b, rules)
    ensures TypeFaults(a + b, rules) == TypeFaults(a, rules) + TypeFaults(b, rules)
  {
    forall ts: seq<Tag>, t: Tag
      ensures ValidOnes(ts + [t], rules) == ValidOnes(ts, rules) + ValidOnes([t], rules)
      ensures TypeFaults(ts + [t], rules) == TypeFaults(ts, rules) + TypeFaults([t], rules)
    {
      ValidSnoc(ts, t, rules);
    }
    SharesConcat(ts => ValidOnes(ts, rules), a, b);
    SharesConcat(ts => TypeFaults(ts, rules), a, b);
  }

  /** Kept tag i with the type resolved for it. */
  function WithType(clean: seq<Tag>, i: nat, setup: Setup): Tag
    requires i < |clean|
  {
    clean[i].(datatyp := setup.resolve(clean, i))
  }

  /** So every written tag is a kept one, with the type resolved for it, after the checks. */
  lemma WrittenWereKept(body: seq<Tag>, setup: Setup, x: Tag) returns (i: nat)
    requires x in Written(body, setup)
    ensures i < |Cleaned(body, setup)| && Validated(WithType(Cleaned(body, setup), i, setup), setup.rules) == Some(x)
    ensures WithType(Cleaned(body, setup), i, setup)
      == Cleaned(body, setup)[i].(datatyp := setup.resolve(Cleaned(body, setup), i))
  {
    var clean := Cleaned(body, setup);
    var ts := Resolved(clean, setup);
    ValidOnesMean(ts, setup.rules, x);
    var t :| t in ts && Validated(t, setup.rules) == Some(x);
    i :| 0 <= i < |ts| && ts[i] == t;
  }

  /** And every kept tag that passes the checks is written. */
  lemma KeptAreWritten(body: seq<Tag>, setup: Setup, i: nat)
    requires i < |Cleaned(body, setup)| && Validated(WithType(Cleaned(body, setup), i, setup), setup.rules).Some?
    ensures Validated(WithType(Cleaned(body, setup), i, setup), setup.rules).value in Written(body, setup)
  {
    var clean := Cleaned(body, setup);
    var ts := Resolved(clean, setup);
    assert ts[i] in ts && ts[i] == WithType(clean, i, setup);
    ValidOnesMean(ts, setup.rules, Validated(ts[i], setup.rules).value);
  }

  /** Kept tags have new ids and new nodes. */
  lemma KeptIsNew(clean: seq<Tag>, t: Tag, rules: Rules)
    requires Judge(clean, t, rules) == Kept
    ensures !HasId(clean, t.id) && forall i | 0 <= i < |clean| :: clean[i].nodeId != t.nodeId
  {
    LookupsMean(clean, t.nodeId, t.id);
  }

  /** After deduplication neither ids nor node ids repeat. */
  lemma {:induction false} CleanedIsDistinct(body: seq<Tag>, setup: Setup)
    ensures UniqueIds(Cleaned(body, setup)) && NodesDiffer(Cleaned(body, setup))
  {
    if body != [] {
      var init, t := body[..|body| - 1], Trimmed(body[|body| - 1], setup);
      CleanedIsDistinct(init, setup);
      if Judge(Cleaned(init, setup), t, setup.rules) == Kept {
        KeptIsNew(Cleaned(init, setup), t, setup.rules);
      }
    }
  }

  /** A well-formed tag is either kept or has its node id or its id represented by a kept one. */
  lemma {:induction false} NothingVanishes(body: seq<Tag>, setup: Setup, i: nat)
    requires i < |body|
    requires var t := Trimmed(body[i], setup); t.id != "" && t.nodeId != "" && setup.rules.parses(t.nodeId)
    ensures var t := Trimmed(body[i], setup);
            exists c | c in Cleaned(body, setup) :: c.nodeId == t.nodeId || c.id == t.id
  {
    var n := |body| - 1;
    var t := Trimmed(body[i], setup);
    var clean := Cleaned(body[..n], setup);
    if i < n {
      NothingVanishes(body[..n], setup, i);
      var c :| c in clean && (c.nodeId == t.nodeId || c.id == t.id);
      assert c in Cleaned(body, setup);
    } else if Judge(clean, t, setup.rules) == Kept {
      assert t.(datatyp := setup.rules.norm(t.datatyp)) in Cleaned(body, setup);
    } else {
      LookupsMean(clean, t.nodeId, t.id);
      if IdOfNode(clean, t.nodeId).Some? {
        var c :| 0 <= c < |clean| && clean[c].nodeId == t.nodeId;
        assert clean[c] in Cleaned(body, setup);
      } else {
        var c :| 0 <= c < |clean| && clean[c].id == t.id;
        assert clean[c] in Cleaned(body, setup);
      }
    }
  }

  /** Trimmed ids and node ids are present, parse, and differ. */
  ghost predicate Distinct(body: seq<Tag>, setup: Setup) {
    && (forall i | 0 <= i < |body| :: var t := Trimmed(body[i], setup);
          t.id != "" && t.nodeId != "" && setup.rules.parses(t.nodeId))
    && (forall i, j | 0 <= i < j < |body| ::
          Trimmed(body[i], setup).id != Trimmed(body[j], setup).id
          && Trimmed(body[i], setup).nodeId != Trimmed(body[j], setup).nodeId)
  }

  function AllNormed(body: seq<Tag>, setup: Setup): (r: seq<Tag>)
    ensures |r| == |body|
    ensures forall i | 0 <= i < |body| ::
      r[i] == Trimmed(body[i], setup).(datatyp := setup.rules.norm(Trimmed(body[i], setup).datatyp))
  {
    seq(|body|, i requires 0 <= i < |body| =>
      Trimmed(body[i], setup).(datatyp := setup.rules.norm(Trimmed(body[i], setup).datatyp)))
  }

  lemma AllNormedSnoc(body: seq<Tag>, setup: Setup) returns (t: Tag)
    requires body != []
    ensures t == Trimmed(body[|body| - 1], setup)
    ensures AllNormed(body, setup) == AllNormed(body[..|body| - 1], setup) + [t.(datatyp := setup.rules.norm(t.datatyp))]
  {
    t := Trimmed(body[|body| - 1], setup);
  }

  /** A list whose ids and node ids are already distinct, as the console prepares it, is kept whole. */
  lemma {:induction false} DistinctTagsAreAllKept(body: seq<Tag>, setup: Setup)
    requires Distinct(body, setup)
    ensures FaultsOf(body, setup) == [] && Cleaned(body, setup) == AllNormed(body, setup)
  {
    if body != [] {
      var n := |body| - 1;
      assert Distinct(body[..n], setup);
      DistinctTagsAreAllKept(body[..n], setup);
      var t := AllNormedSnoc(body, setup);
      NewTagIsKept(AllNormed(body[..n], setup), t, setup.rules);
    }
  }

  lemma NewTagIsKept(clean: seq<Tag>, t: Tag, rules: Rules)
    requires t.id != "" && t.nodeId != "" && rules.parses(t.nodeId)
    requires forall i | 0 <= i < |clean| :: clean[i].id != t.id && clean[i].nodeId != t.nodeId
    ensures Judge(clean, t, rules) == Kept
  {
    LookupsMean(clean, t.nodeId, t.id);
  }

  lemma {:induction false} ValidOnesAre(ts: seq<Tag>, rules: Rules, id: string)
    requires UniqueIds(ts)
    ensures UniqueIds(ValidOnes(ts, rules))
    ensures HasId(ValidOnes(ts, rules), id) ==> HasId(ts, id)
    ensures PositiveIntervals(ValidOnes(ts, rules))
  {
    if ts != [] {
      var n := |ts| - 1;
      ValidOnesAre(ts[..n], rules, id);
      ValidOnesAre(ts[..n], rules, ts[n].id);
      if HasId(ts[..n], id) {
        var i :| 0 <= i < n && ts[..n][i].id == id;
        assert ts[i].id == id;
      }
      if Validated(ts[n], rules).Some? {
        var v := ValidOnes(ts[..n], rules);
        assert !HasId(v, ts[n].id);
        assert forall j | 0 <= j < |v| :: v[j].id != ts[n].id;
        assert ts[n].id == id ==> HasId(ts, id);
        if HasId(v + [Validated(ts[n], rules).value], id) && ts[n].id != id {
          assert HasId(v, id);
        }
      }
    }
  }

  lemma WrittenIsDistinct(body: seq<Tag>, setup: Setup)
    ensures UniqueIds(Written(body, setup)) && PositiveIntervals(Written(body, setup))
  {
    CleanedIsDistinct(body, setup);
    ValidOnesAre(Resolved(Cleaned(body, setup), setup), setup.rules, "");
  }

  /**
   On a device with unique ids: ids stay unique, every written tag is there exactly once,
   and every other tag keeps its place and its value.
   */
  lemma BulkLosesNothing(before: seq<Tag>, body: seq<Tag>, setup: Setup)
    requires UniqueIds(before)
    ensures var ts, after := Written(body, setup), Merged(before, Written(body, setup));
            && UniqueIds(after)
            && (forall t | t in ts :: t in after)
            && |before| <= |after|
            && (forall i | 0 <= i < |before| :: after[i].id == before[i].id)
            && (forall i | 0 <= i < |before| && !HasId(ts, before[i].id) :: after[i] == before[i])
            && (forall x | x in after :: x in before || x in ts)
  {
    var ts := Written(body, setup);
    WrittenIsDistinct(body, setup);
    MergedKeepsUnique(before, ts);
    MergedLength(before, ts);
    forall k | 0 <= k < |ts| ensures ts[k] in Merged(before, ts) {
      MergedHasInput(before, ts, k);
    }
    forall i | 0 <= i < |before|
      ensures |before| <= |Merged(before, ts)| && Merged(before, ts)[i].id == before[i].id
      ensures !HasId(ts, before[i].id) ==> Merged(before, ts)[i] == before[i]
    {
      MergedKeepsOthers(before, ts, i);
    }
    forall x | x in Merged(before, ts) ensures x in before || x in ts {
      MergedHasNothingElse(before, ts, x);
    }
  }

  lemma {:induction false} MergedLength(tags: seq<Tag>, ts: seq<Tag>)
    ensures |tags| <= |Merged(tags, ts)|
  {
    if ts != [] {
      MergedLength(tags, ts[..|ts| - 1]);
    }
  }
}
