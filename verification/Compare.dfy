/** The project comparison: what two lists of devices have in common and where they differ. */
module Compare {
  import opened Wrappers
  import opened Text
  import opened Core
  import opened SortedKeys

  datatype Status = AddedInB | RemovedInB | Changed

  datatype Row = Row(status: Status, kind: string, deviceId: string, id: string, field: string, a: string, b: string)

  // ---- indexes: the last entry with a key wins ---------------------------------

  const NUL: char := '\0'

  function Key(dev: string, tid: string): string {
    dev + [NUL] + tid
  }

  function DeviceIndex(devs: seq<Device>): map<string, Device> {
    if devs == [] then map[]
    else var d := devs[|devs| - 1]; DeviceIndex(devs[..|devs| - 1])[d.id := d]
  }

  function WithTags(m: map<string, Tag>, dev: string, tags: seq<Tag>): map<string, Tag> {
    if tags == [] then m
    else var t := tags[|tags| - 1]; WithTags(m, dev, tags[..|tags| - 1])[Key(dev, t.id) := t]
  }

  function TagIndex(devs: seq<Device>): map<string, Tag> {
    if devs == [] then map[]
    else var d := devs[|devs| - 1]; WithTags(TagIndex(devs[..|devs| - 1]), d.id, d.tags)
  }

  method IndexDevices(devs: seq<Device>) returns (m: map<string, Device>)
    ensures m == DeviceIndex(devs)
  {
    m := map[];
    for i := 0 to |devs|
      invariant m == DeviceIndex(devs[..i])
    {
      assert devs[..i + 1][..i] == devs[..i];
      m := m[devs[i].id := devs[i]];
    }
    assert devs[..|devs|] == devs;
  }

  method IndexTags(devs: seq<Device>) returns (m: map<string, Tag>)
    ensures m == TagIndex(devs)
  {
    m := map[];
    for i := 0 to |devs|
      invariant m == TagIndex(devs[..i])
    {
      var d := devs[i];
      ghost var before := m;
      for j := 0 to |d.tags|
        invariant m == WithTags(before, d.id, d.tags[..j])
      {
        assert d.tags[..j + 1][..j] == d.tags[..j];
        m := m[Key(d.id, d.tags[j].id) := d.tags[j]];
      }
      assert d.tags[..|d.tags|] == d.tags;
      assert devs[..i + 1][..i] == devs[..i];
    }
    assert devs[..|devs|] == devs;
  }

  /** splitKey as a value: cut at the first NUL. */
  function KeyParts(k: string): (string, string) {
    var i := Index(k, [NUL]);
    if i.None? then ("", k) else (k[..i.value], k[i.value + 1..])
  }

  lemma NulOccurs(k: string, i: nat)
    ensures OccursAt(k, [NUL], i) <==> i < |k| && k[i] == NUL
  {
    if i < |k| {
      assert k[i..i + 1] == [k[i]];
    }
  }

  method SplitKey(k: string) returns (dev: string, tid: string)
    ensures (dev, tid) == KeyParts(k)
  {
    for i := 0 to |k|
      invariant forall j: nat | j < i :: !OccursAt(k, [NUL], j)
    {
      NulOccurs(k, i);
      if k[i] == NUL {
        return k[..i], k[i + 1..];
      }
    }
    forall j: nat ensures !OccursAt(k, [NUL], j) {
      NulOccurs(k, j);
    }
    return "", k;
  }

  /** The composite key splits back exactly when the device id holds no NUL. */
  lemma KeySplitsBack(dev: string, tid: string)
    ensures KeyParts(Key(dev, tid)) == (dev, tid) <==> NUL !in dev
  {
    var k := Key(dev, tid);
    NulOccurs(k, |dev|);
    var i := Index(k, [NUL]).value;
    NulOccurs(k, i);
    if NUL in dev {
      var j :| 0 <= j < |dev| && dev[j] == NUL;
      NulOccurs(k, j);
      assert |KeyParts(k).0| == i < |dev|;
    } else {
      assert i == |dev|;
      assert k[..i] == dev && k[i + 1..] == tid;
    }
  }

  // ---- rows ----------------------------------------------------------------------

  function FormatBool(b: bool): string {
    if b then "true" else "false"
  }

  function DeviceFields(d: Device): (fields: seq<(string, string)>)
    ensures |fields| == 3
  {
    [("endpoint", d.endpoint), ("username", d.username), ("security", d.security)]
  }

  function TagFields(t: Tag): (fields: seq<(string, string)>)
    ensures |fields| == 7
  {
    [("node_id", t.nodeId), ("path", t.path), ("datatype", t.datatyp), ("enabled", FormatBool(t.enabled)),
     ("interval_ms", Itoa(t.intervalMs)), ("writable", FormatBool(t.writable)), ("simulate", FormatBool(t.simulate))]
  }

  /** One row per field whose texts differ, in the order of the fields. */
  function FieldRows(kind: string, dev: string, id: string, fa: seq<(string, string)>, fb: seq<(string, string)>): seq<Row>
    requires |fa| == |fb|
  {
    if fa == [] then []
    else
      var n := |fa| - 1;
      FieldRows(kind, dev, id, fa[..n], fb[..n]) +
      if fa[n].1 == fb[n].1 then [] else [Row(Changed, kind, dev, id, fa[n].0, fa[n].1, fb[n].1)]
  }

  function ServerRows(id: string, a: Option<Device>, b: Option<Device>): seq<Row> {
    if a.Some? && b.None? then [Row(RemovedInB, "server", "", id, "", a.value.endpoint, "")]
    else if a.None? && b.Some? then [Row(AddedInB, "server", "", id, "", "", b.value.endpoint)]
    else if a.Some? then FieldRows("server", "", id, DeviceFields(a.value), DeviceFields(b.value))
    else []
  }

  function TagRows(key: string, a: Option<Tag>, b: Option<Tag>): seq<Row> {
    var (dev, tid) := KeyParts(key);
    if a.Some? && b.None? then [Row(RemovedInB, "tag", dev, tid, "", a.value.nodeId, "")]
    else if a.None? && b.Some? then [Row(AddedInB, "tag", dev, tid, "", "", b.value.nodeId)]
    else if a.Some? then FieldRows("tag", dev, tid, TagFields(a.value), TagFields(b.value))
    else []
  }

  function Get<V>(m: map<string, V>, k: string): Option<V> {
    if k in m then Some(m[k]) else None
  }

  function RowsOver<V>(keys: seq<string>, am: map<string, V>, bm: map<string, V>,
                       rows: (string, Option<V>, Option<V>) -> seq<Row>): seq<Row> {
    if keys == [] then []
    else
      var k := keys[|keys| - 1];
      RowsOver(keys[..|keys| - 1], am, bm, rows) + rows(k, Get(am, k), Get(bm, k))
  }

  /** The comparison as a value: servers in key order, then tags in key order. */
  ghost function Diff(a: seq<Device>, b: seq<Device>): seq<Row> {
    RowsOver(SortedOf(DeviceIndex(a).Keys + DeviceIndex(b).Keys), DeviceIndex(a), DeviceIndex(b), ServerRows)
    + RowsOver(SortedOf(TagIndex(a).Keys + TagIndex(b).Keys), TagIndex(a), TagIndex(b), TagRows)
  }

  method AppendFieldRows(out: seq<Row>, kind: string, dev: string, id: string,
                         fa: seq<(string, string)>, fb: seq<(string, string)>)
    returns (rows: seq<Row>)
    requires |fa| == |fb|
    ensures rows == out + FieldRows(kind, dev, id, fa, fb)
  {
    rows := out;
    for i := 0 to |fa|
      invariant rows == out + FieldRows(kind, dev, id, fa[..i], fb[..i])
    {
      assert fa[..i + 1][..i] == fa[..i] && fb[..i + 1][..i] == fb[..i];
      if fa[i].1 != fb[i].1 {
        rows := rows + [Row(Changed, kind, dev, id, fa[i].0, fa[i].1, fb[i].1)];
      }
    }
    assert fa[..|fa|] == fa && fb[..|fb|] == fb;
  }

  method CompareServers(ids: seq<string>, am: map<string, Device>, bm: map<string, Device>) returns (out: seq<Row>)
    requires forall id | id in ids :: id in am || id in bm
    ensures out == RowsOver(ids, am, bm, ServerRows)
  {
    out := [];
    for i := 0 to |ids|
      invariant out == RowsOver(ids[..i], am, bm, ServerRows)
    {
      var id := ids[i];
      assert ids[..i + 1][..i] == ids[..i];
      if id in am && id !in bm {
        out := out + [Row(RemovedInB, "server", "", id, "", am[id].endpoint, "")];
        continue;
      }
      if id !in am && id in bm {
        out := out + [Row(AddedInB, "server", "", id, "", "", bm[id].endpoint)];
        continue;
      }
      out := AppendFieldRows(out, "server", "", id, DeviceFields(am[id]), DeviceFields(bm[id]));
    }
    assert ids[..|ids|] == ids;
  }

  method CompareTags(keys: seq<string>, at: map<string, Tag>, bt: map<string, Tag>) returns (out: seq<Row>)
    requires forall k | k in keys :: k in at || k in bt
    ensures out == RowsOver(keys, at, bt, TagRows)
  {
    out := [];
    for i := 0 to |keys|
      invariant out == RowsOver(keys[..i], at, bt, TagRows)
    {
      var k := keys[i];
      var dev, tid := SplitKey(k);
      assert keys[..i + 1][..i] == keys[..i];
      if k in at && k !in bt {
        out := out + [Row(RemovedInB, "tag", dev, tid, "", at[k].nodeId, "")];
        continue;
      }
      if k !in at && k in bt {
        out := out + [Row(AddedInB, "tag", dev, tid, "", "", bt[k].nodeId)];
        continue;
      }
      out := AppendFieldRows(out, "tag", dev, tid, TagFields(at[k]), TagFields(bt[k]));
    }
    assert keys[..|keys|] == keys;
  }

  /** The n-th map iteration may visit the keys in any order; the rows do not depend on it. */
  method Compare(a: seq<Device>, b: seq<Device>, order: (nat, set<string>) -> seq<string>) returns (out: seq<Row>)
    requires forall n, s :: Visits(order(n, s), s)
    ensures out == Diff(a, b)
  {
    var am := IndexDevices(a);
    var bm := IndexDevices(b);
    var ids := UnionKeys(am.Keys, bm.Keys, order(0, am.Keys), order(1, bm.Keys));
    var servers := CompareServers(ids, am, bm);
    var at := IndexTags(a);
    var bt := IndexTags(b);
    var keys := UnionKeys(at.Keys, bt.Keys, order(2, at.Keys), order(3, bt.Keys));
    var tags := CompareTags(keys, at, bt);
    out := servers + tags;
  }

  // ---- swapping the sides ------------------------------------------------------------

  function Swap(r: Row): Row {
    var status := match r.status case AddedInB => RemovedInB case RemovedInB => AddedInB case Changed => Changed;
    r.(status := status, a := r.b, b := r.a)
  }

  function SwapAll(rows: seq<Row>): (s: seq<Row>)
    ensures |s| == |rows| && forall i | 0 <= i < |rows| :: s[i] == Swap(rows[i])
  {
    seq(|rows|, i requires 0 <= i < |rows| => Swap(rows[i]))
  }

  lemma {:induction false} FieldRowsSwap(kind: string, dev: string, id: string,
                                         fa: seq<(string, string)>, fb: seq<(string, string)>)
    requires |fa| == |fb| && forall i | 0 <= i < |fa| :: fa[i].0 == fb[i].0
    ensures FieldRows(kind, dev, id, fb, fa) == SwapAll(FieldRows(kind, dev, id, fa, fb))
  {
    if fa != [] {
      var n := |fa| - 1;
      FieldRowsSwap(kind, dev, id, fa[..n], fb[..n]);
    }
  }

  lemma ServerRowsSwap(id: string, a: Option<Device>, b: Option<Device>)
    ensures ServerRows(id, b, a) == SwapAll(ServerRows(id, a, b))
  {
    if a.Some? && b.Some? {
      FieldRowsSwap("server", "", id, DeviceFields(a.value), DeviceFields(b.value));
    }
  }

  lemma TagRowsSwap(key: string, a: Option<Tag>, b: Option<Tag>)
    ensures TagRows(key, b, a) == SwapAll(TagRows(key, a, b))
  {
    if a.Some? && b.Some? {
      FieldRowsSwap("tag", KeyParts(key).0, KeyParts(key).1, TagFields(a.value), TagFields(b.value));
    }
  }

  lemma ServerRowsAllSwap()
    ensures forall k, x, y :: ServerRows(k, y, x) == SwapAll(ServerRows(k, x, y))
  {
    forall k, x, y ensures ServerRows(k, y, x) == SwapAll(ServerRows(k, x, y)) {
      ServerRowsSwap(k, x, y);
    }
  }

  lemma TagRowsAllSwap()
    ensures forall k, x, y :: TagRows(k, y, x) == SwapAll(TagRows(k, x, y))
  {
    forall k, x, y ensures TagRows(k, y, x) == SwapAll(TagRows(k, x, y)) {
      TagRowsSwap(k, x, y);
    }
  }

  lemma {:induction false} RowsOverSwap<V(!new)>(keys: seq<string>, am: map<string, V>, bm: map<string, V>,
                                                 rows: (string, Option<V>, Option<V>) -> seq<Row>)
    requires forall k, x, y :: rows(k, y, x) == SwapAll(rows(k, x, y))
    ensures RowsOver(keys, bm, am, rows) == SwapAll(RowsOver(keys, am, bm, rows))
  {
    if keys != [] {
      RowsOverSwap(keys[..|keys| - 1], am, bm, rows);
    }
  }

  lemma UnionSwap<V(!new)>(am: map<string, V>, bm: map<string, V>, rows: (string, Option<V>, Option<V>) -> seq<Row>)
    requires forall k, x, y :: rows(k, y, x) == SwapAll(rows(k, x, y))
    ensures RowsOver(SortedOf(bm.Keys + am.Keys), bm, am, rows)
            == SwapAll(RowsOver(SortedOf(am.Keys + bm.Keys), am, bm, rows))
  {
    assert bm.Keys + am.Keys == am.Keys + bm.Keys;
    RowsOverSwap(SortedOf(am.Keys + bm.Keys), am, bm, rows);
  }

  lemma SwapAllConcat(x: seq<Row>, y: seq<Row>)
    ensures SwapAll(x + y) == SwapAll(x) + SwapAll(y)
  {
  }

  /** Exchanging the two projects swaps A with B and added with removed, row by row in the same order. */
  lemma DiffSwaps(a: seq<Device>, b: seq<Device>)
    ensures Diff(b, a) == SwapAll(Diff(a, b))
  {
    var (am, bm, at, bt) := (DeviceIndex(a), DeviceIndex(b), TagIndex(a), TagIndex(b));
    ServerRowsAllSwap();
    UnionSwap(am, bm, ServerRows);
    TagRowsAllSwap();
    UnionSwap(at, bt, TagRows);
    SwapAllConcat(RowsOver(SortedOf(am.Keys + bm.Keys), am, bm, ServerRows),
                  RowsOver(SortedOf(at.Keys + bt.Keys), at, bt, TagRows));
  }

  // ---- completeness ---------------------------------------------------------------------

  predicate SameDevice(a: Device, b: Device) {
    a.endpoint == b.endpoint && a.username == b.username && a.security == b.security
  }

  predicate SameTag(a: Tag, b: Tag) {
    a.nodeId == b.nodeId && a.path == b.path && a.datatyp == b.datatyp && a.enabled == b.enabled
    && a.intervalMs == b.intervalMs && a.writable == b.writable && a.simulate == b.simulate
  }

  /** A field row is there exactly for each field whose texts differ, and says both texts. */
  lemma {:induction false} FieldRowsAre(kind: string, dev: string, id: string,
                                        fa: seq<(string, string)>, fb: seq<(string, string)>, r: Row)
    requires |fa| == |fb|
    ensures r in FieldRows(kind, dev, id, fa, fb) <==>
            exists i | 0 <= i < |fa| :: fa[i].1 != fb[i].1 && r == Row(Changed, kind, dev, id, fa[i].0, fa[i].1, fb[i].1)
  {
    if fa != [] {
      var n := |fa| - 1;
      FieldRowsAre(kind, dev, id, fa[..n], fb[..n], r);
    }
  }

  lemma {:induction false} FieldRowsEmpty(kind: string, dev: string, id: string,
                                          fa: seq<(string, string)>, fb: seq<(string, string)>)
    requires |fa| == |fb|
    ensures FieldRows(kind, dev, id, fa, fb) == [] <==> forall i | 0 <= i < |fa| :: fa[i].1 == fb[i].1
  {
    if fa != [] {
      var n := |fa| - 1;
      FieldRowsEmpty(kind, dev, id, fa[..n], fb[..n]);
    }
  }

  lemma ServerRowsEmpty(id: string, a: Device, b: Device)
    ensures ServerRows(id, Some(a), Some(b)) == [] <==> SameDevice(a, b)
  {
    var fa, fb := DeviceFields(a), DeviceFields(b);
    FieldRowsEmpty("server", "", id, fa, fb);
    assert SameDevice(a, b) <==> fa[0].1 == fb[0].1 && fa[1].1 == fb[1].1 && fa[2].1 == fb[2].1;
  }

  lemma TagRowsEmpty(key: string, a: Tag, b: Tag)
    ensures TagRows(key, Some(a), Some(b)) == [] <==> SameTag(a, b)
  {
    var fa, fb := TagFields(a), TagFields(b);
    FieldRowsEmpty("tag", KeyParts(key).0, KeyParts(key).1, fa, fb);
    if fa[4].1 == fb[4].1 { ItoaInjective(a.intervalMs, b.intervalMs); }
    assert |FormatBool(true)| == 4 && |FormatBool(false)| == 5;
    assert SameTag(a, b) <==>
      fa[0].1 == fb[0].1 && fa[1].1 == fb[1].1 && fa[2].1 == fb[2].1 && fa[3].1 == fb[3].1
      && fa[4].1 == fb[4].1 && fa[5].1 == fb[5].1 && fa[6].1 == fb[6].1;
  }

  lemma {:induction false} RowsOverEmpty<V>(keys: seq<string>, am: map<string, V>, bm: map<string, V>,
                                            rows: (string, Option<V>, Option<V>) -> seq<Row>)
    ensures RowsOver(keys, am, bm, rows) == [] <==> forall k | k in keys :: rows(k, Get(am, k), Get(bm, k)) == []
  {
    if keys != [] {
      RowsOverEmpty(keys[..|keys| - 1], am, bm, rows);
      assert forall k | k in keys :: k in keys[..|keys| - 1] || k == keys[|keys| - 1];
    }
  }

  ghost predicate Agree(a: seq<Device>, b: seq<Device>) {
    var (am, bm, at, bt) := (DeviceIndex(a), DeviceIndex(b), TagIndex(a), TagIndex(b));
    && am.Keys == bm.Keys && (forall id | id in am :: SameDevice(am[id], bm[id]))
    && at.Keys == bt.Keys && (forall k | k in at :: SameTag(at[k], bt[k]))
  }

  lemma RowsEmptyMeans<V(!new)>(am: map<string, V>, bm: map<string, V>,
                                rows: (string, Option<V>, Option<V>) -> seq<Row>, same: (V, V) -> bool)
    requires forall k, x, y :: rows(k, Some(x), Some(y)) == [] <==> same(x, y)
    requires forall k, x :: rows(k, Some(x), None) != [] && rows(k, None, Some(x)) != []
    ensures RowsOver(SortedOf(am.Keys + bm.Keys), am, bm, rows) == [] <==>
            am.Keys == bm.Keys && forall k | k in am :: same(am[k], bm[k])
  {
    var keys := SortedOf(am.Keys + bm.Keys);
    RowsOverEmpty(keys, am, bm, rows);
    if RowsOver(keys, am, bm, rows) == [] {
      forall k | k in am.Keys + bm.Keys ensures k in am && k in bm && same(am[k], bm[k]) {
        assert k in keys;
      }
    }
  }

  lemma ServersEmpty(am: map<string, Device>, bm: map<string, Device>)
    ensures RowsOver(SortedOf(am.Keys + bm.Keys), am, bm, ServerRows) == [] <==>
            am.Keys == bm.Keys && forall id | id in am :: SameDevice(am[id], bm[id])
  {
    forall k, x, y ensures ServerRows(k, Some(x), Some(y)) == [] <==> SameDevice(x, y) {
      ServerRowsEmpty(k, x, y);
    }
    RowsEmptyMeans(am, bm, ServerRows, SameDevice);
  }

  lemma TagsEmpty(at: map<string, Tag>, bt: map<string, Tag>)
    ensures RowsOver(SortedOf(at.Keys + bt.Keys), at, bt, TagRows) == [] <==>
            at.Keys == bt.Keys && forall k | k in at :: SameTag(at[k], bt[k])
  {
    forall k, x, y ensures TagRows(k, Some(x), Some(y)) == [] <==> SameTag(x, y) {
      TagRowsEmpty(k, x, y);
    }
    RowsEmptyMeans(at, bt, TagRows, SameTag);
  }

  /** No rows exactly when the indexed devices and tags agree on every compared field. */
  lemma EmptyDiffMeansAgreement(a: seq<Device>, b: seq<Device>)
    ensures Diff(a, b) == [] <==> Agree(a, b)
  {
    ServersEmpty(DeviceIndex(a), DeviceIndex(b));
    TagsEmpty(TagIndex(a), TagIndex(b));
  }

  lemma {:induction false} RowsOverAre<V>(keys: seq<string>, am: map<string, V>, bm: map<string, V>,
                                          rows: (string, Option<V>, Option<V>) -> seq<Row>, r: Row)
    ensures r in RowsOver(keys, am, bm, rows) <==> exists k | k in keys :: r in rows(k, Get(am, k), Get(bm, k))
  {
    if keys != [] {
      RowsOverAre(keys[..|keys| - 1], am, bm, rows, r);
      assert forall k | k in keys :: k in keys[..|keys| - 1] || k == keys[|keys| - 1];
    }
  }

  /** Rows come in the order of the keys. */
  lemma {:induction false} RowsFollowKeys<V>(a: seq<string>, b: seq<string>, am: map<string, V>, bm: map<string, V>,
                                             rows: (string, Option<V>, Option<V>) -> seq<Row>)
    ensures RowsOver(a + b, am, bm, rows) == RowsOver(a, am, bm, rows) + RowsOver(b, am, bm, rows)
  {
    if b == [] {
      assert a + b == a;
    } else {
      var n := |b| - 1;
      RowsFollowKeys(a, b[..n], am, bm, rows);
      assert (a + b)[..|a + b| - 1] == a + b[..n];
    }
  }

  /** A server row is there exactly when one of the two sides, or one of their fields, asks for it. */
  lemma ServerRowsAreComplete(am: map<string, Device>, bm: map<string, Device>, r: Row)
    ensures r in RowsOver(SortedOf(am.Keys + bm.Keys), am, bm, ServerRows) <==>
            exists id | id in am.Keys + bm.Keys :: r in ServerRows(id, Get(am, id), Get(bm, id))
  {
    RowsOverAre(SortedOf(am.Keys + bm.Keys), am, bm, ServerRows, r);
  }

  lemma TagRowsAreComplete(at: map<string, Tag>, bt: map<string, Tag>, r: Row)
    ensures r in RowsOver(SortedOf(at.Keys + bt.Keys), at, bt, TagRows) <==>
            exists k | k in at.Keys + bt.Keys :: r in TagRows(k, Get(at, k), Get(bt, k))
  {
    RowsOverAre(SortedOf(at.Keys + bt.Keys), at, bt, TagRows, r);
  }

  /** A changed row for one field, if its texts differ. */
  function Differs(kind: string, dev: string, id: string, field: string, x: string, y: string): seq<Row> {
    if x == y then [] else [Row(Changed, kind, dev, id, field, x, y)]
  }

  function Bool(b: bool): string {
    if b then "true" else "false"
  }

  /** The rows for a server, field by field. */
  lemma ServerRowsSay(id: string, a: Device, b: Device)
    ensures ServerRows(id, Some(a), None) == [Row(RemovedInB, "server", "", id, "", a.endpoint, "")]
    ensures ServerRows(id, None, Some(b)) == [Row(AddedInB, "server", "", id, "", "", b.endpoint)]
    ensures ServerRows(id, Some(a), Some(b)) ==
            Differs("server", "", id, "endpoint", a.endpoint, b.endpoint)
            + Differs("server", "", id, "username", a.username, b.username)
            + Differs("server", "", id, "security", a.security, b.security)
  {
    var fa, fb := DeviceFields(a), DeviceFields(b);
    FieldRowsLast("server", "", id, fa, fb, 3);
    FieldRowsLast("server", "", id, fa, fb, 2);
    FieldRowsLast("server", "", id, fa, fb, 1);
  }

  lemma FieldRowsLast(kind: string, dev: string, id: string, fa: seq<(string, string)>, fb: seq<(string, string)>, n: nat)
    requires 0 < n <= |fa| == |fb|
    ensures FieldRows(kind, dev, id, fa[..n], fb[..n])
      == FieldRows(kind, dev, id, fa[..n - 1], fb[..n - 1]) + Differs(kind, dev, id, fa[n - 1].0, fa[n - 1].1, fb[n - 1].1)
    ensures n == 1 ==> FieldRows(kind, dev, id, fa[..n - 1], fb[..n - 1]) == []
    ensures fa[..|fa|] == fa && fb[..|fb|] == fb
  {
    assert fa[..n][..n - 1] == fa[..n - 1] && fb[..n][..n - 1] == fb[..n - 1];
  }

  /** The rows for a tag of a device whose id holds no NUL, field by field. */
  lemma TagRowsSay(dev: string, tid: string, a: Tag, b: Tag)
    requires NUL !in dev
    ensures TagRows(Key(dev, tid), Some(a), None) == [Row(RemovedInB, "tag", dev, tid, "", a.nodeId, "")]
    ensures TagRows(Key(dev, tid), None, Some(b)) == [Row(AddedInB, "tag", dev, tid, "", "", b.nodeId)]
    ensures TagRows(Key(dev, tid), Some(a), Some(b)) ==
            Differs("tag", dev, tid, "node_id", a.nodeId, b.nodeId)
            + Differs("tag", dev, tid, "path", a.path, b.path)
            + Differs("tag", dev, tid, "datatype", a.datatyp, b.datatyp)
            + Differs("tag", dev, tid, "enabled", Bool(a.enabled), Bool(b.enabled))
            + Differs("tag", dev, tid, "interval_ms", Itoa(a.intervalMs), Itoa(b.intervalMs))
            + Differs("tag", dev, tid, "writable", Bool(a.writable), Bool(b.writable))
            + Differs("tag", dev, tid, "simulate", Bool(a.simulate), Bool(b.simulate))
  {
    KeySplitsBack(dev, tid);
    TagFieldRowsSay(dev, tid, TagFields(a), TagFields(b));
  }

  lemma TagFieldRowsSay(dev: string, tid: string, fa: seq<(string, string)>, fb: seq<(string, string)>)
    requires |fa| == |fb| == 7
    ensures FieldRows("tag", dev, tid, fa, fb) ==
            Differs("tag", dev, tid, fa[0].0, fa[0].1, fb[0].1) + Differs("tag", dev, tid, fa[1].0, fa[1].1, fb[1].1)
            + Differs("tag", dev, tid, fa[2].0, fa[2].1, fb[2].1) + Differs("tag", dev, tid, fa[3].0, fa[3].1, fb[3].1)
            + Differs("tag", dev, tid, fa[4].0, fa[4].1, fb[4].1) + Differs("tag", dev, tid, fa[5].0, fa[5].1, fb[5].1)
            + Differs("tag", dev, tid, fa[6].0, fa[6].1, fb[6].1)
  {
    var r0 := FieldRows("tag", dev, tid, [], []);
    var r1, d1 := OneMoreField("tag", dev, tid, fa, fb, 0, r0);
    var r2, d2 := OneMoreField("tag", dev, tid, fa, fb, 1, r1);
    var r3, d3 := OneMoreField("tag", dev, tid, fa, fb, 2, r2);
    var r4, d4 := OneMoreField("tag", dev, tid, fa, fb, 3, r3);
    var r5, d5 := OneMoreField("tag", dev, tid, fa, fb, 4, r4);
    var r6, d6 := OneMoreField("tag", dev, tid, fa, fb, 5, r5);
    var r7, d7 := OneMoreField("tag", dev, tid, fa, fb, 6, r6);
    assert r0 + d1 == d1;
    assert fa[..7] == fa && fb[..7] == fb;
  }

  lemma OneMoreField(kind: string, dev: string, id: string, fa: seq<(string, string)>, fb: seq<(string, string)>, n: nat, rows: seq<Row>)
    returns (more: seq<Row>, last: seq<Row>)
    requires n < |fa| == |fb| && rows == FieldRows(kind, dev, id, fa[..n], fb[..n])
    ensures last == Differs(kind, dev, id, fa[n].0, fa[n].1, fb[n].1)
    ensures more == rows + last && more == FieldRows(kind, dev, id, fa[..n + 1], fb[..n + 1])
  {
    last := Differs(kind, dev, id, fa[n].0, fa[n].1, fb[n].1);
    more := rows + last;
    FieldRowsLast(kind, dev, id, fa, fb, n + 1);
  }

  // ---- the rows lead from A to B --------------------------------------------------------

  /** The text of a field after applying rows to it in order. */
  function Patched(name: string, text: string, rows: seq<Row>): string {
    if rows == [] then text
    else
      var r := rows[|rows| - 1];
      if r.field == name then r.b else Patched(name, text, rows[..|rows| - 1])
  }

  lemma PatchedLast(name: string, text: string, kind: string, dev: string, id: string,
                    fa: seq<(string, string)>, fb: seq<(string, string)>)
    requires |fa| == |fb| && fa != []
    ensures var n := |fa| - 1;
            Patched(name, text, FieldRows(kind, dev, id, fa, fb)) ==
            if fa[n].1 != fb[n].1 && fa[n].0 == name then fb[n].1
            else Patched(name, text, FieldRows(kind, dev, id, fa[..n], fb[..n]))
  {
    var n := |fa| - 1;
    var rows := FieldRows(kind, dev, id, fa[..n], fb[..n]);
    var r := Row(Changed, kind, dev, id, fa[n].0, fa[n].1, fb[n].1);
    assert (rows + [r])[..|rows|] == rows && rows + [] == rows;
  }

  lemma {:induction false} OthersLeaveItAlone(name: string, text: string, kind: string, dev: string, id: string,
                                              fa: seq<(string, string)>, fb: seq<(string, string)>)
    requires |fa| == |fb| && forall i | 0 <= i < |fa| :: fa[i].0 != name
    ensures Patched(name, text, FieldRows(kind, dev, id, fa, fb)) == text
  {
    if fa != [] {
      var n := |fa| - 1;
      PatchedLast(name, text, kind, dev, id, fa, fb);
      OthersLeaveItAlone(name, text, kind, dev, id, fa[..n], fb[..n]);
    }
  }

  lemma {:induction false} RowsPatchFields(kind: string, dev: string, id: string,
                                           fa: seq<(string, string)>, fb: seq<(string, string)>, i: nat)
    requires |fa| == |fb| && i < |fa|
    requires forall p, q | 0 <= p < q < |fa| :: fa[p].0 != fa[q].0
    ensures Patched(fa[i].0, fa[i].1, FieldRows(kind, dev, id, fa, fb)) == fb[i].1
  {
    var n := |fa| - 1;
    PatchedLast(fa[i].0, fa[i].1, kind, dev, id, fa, fb);
    if i < n {
      RowsPatchFields(kind, dev, id, fa[..n], fb[..n], i);
    } else {
      OthersLeaveItAlone(fa[n].0, fa[n].1, kind, dev, id, fa[..n], fb[..n]);
    }
  }

  /** Applying a tag's changed rows to its fields in A gives exactly its fields in B. */
  lemma TagRowsPatch(key: string, a: Tag, b: Tag, i: nat)
    requires i < 7
    ensures Patched(TagFields(a)[i].0, TagFields(a)[i].1, TagRows(key, Some(a), Some(b))) == TagFields(b)[i].1
  {
    assert forall j | 0 <= j < 7 :: TagFields(a)[j].0[0] == "npdeiws"[j];
    RowsPatchFields("tag", KeyParts(key).0, KeyParts(key).1, TagFields(a), TagFields(b), i);
  }

  /** The same for a device. */
  lemma ServerRowsPatch(id: string, a: Device, b: Device, i: nat)
    requires i < 3
    ensures Patched(DeviceFields(a)[i].0, DeviceFields(a)[i].1, ServerRows(id, Some(a), Some(b))) == DeviceFields(b)[i].1
  {
    assert forall j | 0 <= j < 3 :: DeviceFields(a)[j].0[0] == "eus"[j];
    RowsPatchFields("server", "", id, DeviceFields(a), DeviceFields(b), i);
  }

  /** Whether an entity exists after applying rows to its existence before. */
  function ExistsAfter(before: bool, rows: seq<Row>): bool {
    if rows == [] then before
    else
      match rows[|rows| - 1].status
      case AddedInB => true
      case RemovedInB => false
      case Changed => ExistsAfter(before, rows[..|rows| - 1])
  }

  lemma {:induction false} ChangedRowsKeepExistence(kind: string, dev: string, id: string,
                                                    fa: seq<(string, string)>, fb: seq<(string, string)>)
    requires |fa| == |fb|
    ensures ExistsAfter(true, FieldRows(kind, dev, id, fa, fb))
  {
    if fa != [] {
      var n := |fa| - 1;
      var rows := FieldRows(kind, dev, id, fa[..n], fb[..n]);
      ChangedRowsKeepExistence(kind, dev, id, fa[..n], fb[..n]);
      var r := Row(Changed, kind, dev, id, fa[n].0, fa[n].1, fb[n].1);
      assert (rows + [r])[..|rows|] == rows && rows + [] == rows;
    }
  }

  /** Applied to A, the rows of an entity make it exist exactly when it exists in B. */
  lemma RowsSettleExistence(key: string, a: Option<Device>, b: Option<Device>, ta: Option<Tag>, tb: Option<Tag>)
    ensures ExistsAfter(a.Some?, ServerRows(key, a, b)) <==> b.Some?
    ensures ExistsAfter(ta.Some?, TagRows(key, ta, tb)) <==> tb.Some?
  {
    if a.Some? && b.Some? {
      ChangedRowsKeepExistence("server", "", key, DeviceFields(a.value), DeviceFields(b.value));
    }
    if ta.Some? && tb.Some? {
      ChangedRowsKeepExistence("tag", KeyParts(key).0, KeyParts(key).1, TagFields(ta.value), TagFields(tb.value));
    }
  }

  // ---- what the composite key stands for ---------------------------------------------------

  function LastTag(tags: seq<Tag>, tid: string): Option<Tag> {
    if tags == [] then None
    else var t := tags[|tags| - 1]; if t.id == tid then Some(t) else LastTag(tags[..|tags| - 1], tid)
  }

  /** The tag a reader would find: the last one with this id on a device with this id. */
  function Lookup(devs: seq<Device>, dev: string, tid: string): Option<Tag> {
    if devs == [] then None
    else
      var d := devs[|devs| - 1];
      var found := if d.id == dev then LastTag(d.tags, tid) else None;
      if found.Some? then found else Lookup(devs[..|devs| - 1], dev, tid)
  }

  lemma KeyInjective(d: string, t: string, d': string, t': string)
    requires NUL !in d && NUL !in d'
    ensures Key(d, t) == Key(d', t') <==> d == d' && t == t'
  {
    KeySplitsBack(d, t);
    KeySplitsBack(d', t');
  }

  lemma {:induction false} WithTagsIsLast(m: map<string, Tag>, d: string, tags: seq<Tag>, dev: string, tid: string)
    requires NUL !in d && NUL !in dev
    ensures Get(WithTags(m, d, tags), Key(dev, tid)) ==
            if d == dev && LastTag(tags, tid).Some? then LastTag(tags, tid) else Get(m, Key(dev, tid))
  {
    if tags != [] {
      WithTagsIsLast(m, d, tags[..|tags| - 1], dev, tid);
      KeyInjective(d, tags[|tags| - 1].id, dev, tid);
    }
  }

  /** The device index has exactly the ids present, each with the last device of that id. */
  lemma {:induction false} DeviceIndexIsLast(devs: seq<Device>, id: string)
    ensures id in DeviceIndex(devs) <==> exists i | 0 <= i < |devs| :: devs[i].id == id
    ensures id in DeviceIndex(devs) ==>
      exists i | 0 <= i < |devs| ::
        DeviceIndex(devs)[id] == devs[i] && devs[i].id == id && NoneAfter(devs, i, id)
  {
    if devs != [] {
      var n := |devs| - 1;
      DeviceIndexIsLast(devs[..n], id);
      if devs[n].id == id {
        assert NoneAfter(devs, n, id);
      } else if id in DeviceIndex(devs[..n]) {
        var i :| 0 <= i < n && DeviceIndex(devs[..n])[id] == devs[..n][i] && devs[..n][i].id == id && NoneAfter(devs[..n], i, id);
        assert devs[i] == devs[..n][i];
        forall j | i < j < |devs| ensures devs[j].id != id {
          if j < n { assert devs[..n][j] == devs[j]; }
        }
        assert NoneAfter(devs, i, id);
      } else {
        forall j | 0 <= j < |devs| ensures devs[j].id != id {
          if j < n { assert devs[..n][j] == devs[j]; }
        }
      }
    }
  }

  ghost predicate NoneAfter(devs: seq<Device>, i: nat, id: string) {
    forall j | i < j < |devs| :: devs[j].id != id
  }

  /** With device ids free of NUL the composite index is exactly the lookup by device and tag id. */
  lemma {:induction false} TagIndexIsLookup(devs: seq<Device>, dev: string, tid: string)
    requires NUL !in dev && forall i | 0 <= i < |devs| :: NUL !in devs[i].id
    ensures Get(TagIndex(devs), Key(dev, tid)) == Lookup(devs, dev, tid)
  {
    if devs != [] {
      var d := devs[|devs| - 1];
      TagIndexIsLookup(devs[..|devs| - 1], dev, tid);
      WithTagsIsLast(TagIndex(devs[..|devs| - 1]), d.id, d.tags, dev, tid);
    }
  }

  /**
   Tags of two devices can share a key exactly when the ids are equal or one of them, followed by
   NUL, is a prefix of the other; the tag ids then make up the difference.
   */
  lemma KeysCollideIff(d: string, t: string, d': string, t': string)
    requires |d| <= |d'|
    ensures Key(d, t) == Key(d', t') <==>
            (d == d' && t == t') || (d + [NUL] <= d' && t == d'[|d| + 1..] + [NUL] + t')
  {
    var n := |d|;
    if Key(d, t) == Key(d', t') {
      assert Key(d, t)[..n] == d && Key(d', t')[..n] == d'[..n];
      assert Key(d, t)[n] == NUL && Key(d, t)[n + 1..] == t;
      if n < |d'| {
        assert Key(d', t')[n] == d'[n] && Key(d', t')[n + 1..] == d'[n + 1..] + [NUL] + t';
        assert d'[..n + 1] == d + [NUL];
      } else {
        assert Key(d', t')[n + 1..] == t';
      }
    } else if d + [NUL] <= d' {
      assert d' == d + [NUL] + d'[n + 1..];
    }
  }

  /** So device ids whose tags can never share a key are those where neither is the other followed by NUL. */
  lemma NulDeviceIdsCollide(d: string, d': string)
    requires d != d'
    ensures (exists t, t' :: Key(d, t) == Key(d', t')) <==> d + [NUL] <= d' || d' + [NUL] <= d
  {
    if d + [NUL] <= d' {
      KeysCollideIff(d, d'[|d| + 1..] + [NUL], d', "");
    } else if d' + [NUL] <= d {
      KeysCollideIff(d', d[|d'| + 1..] + [NUL], d, "");
    } else if t, t' :| Key(d, t) == Key(d', t') {
      if |d| <= |d'| { KeysCollideIff(d, t, d', t'); } else { KeysCollideIff(d', t', d, t); }
    }
  }
}
