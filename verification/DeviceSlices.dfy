/** Device lists of the configuration store: lookup, and what its operations make of a list. */
module DeviceSlices {
  import opened Wrappers
  import opened Core
  import opened TagSlices

  /** A device as the store holds it: its tags are a slice, not a value. */
  datatype Dev = Dev(id: string, endpoint: string, username: string, password: string,
                     security: string, pollConcurrency: int, tags: Slice)

  function FindDevice(devices: seq<Dev>, id: string): (r: Option<nat>)
    ensures r.Some? ==> r.value < |devices| && devices[r.value].id == id
    ensures r.Some? ==> forall i | 0 <= i < r.value :: devices[i].id != id
    ensures r.None? ==> forall i | 0 <= i < |devices| :: devices[i].id != id
  {
    if devices == [] then None
    else if devices[0].id == id then Some(0)
    else match FindDevice(devices[1..], id) case None => None case Some(i) => Some(i + 1)
  }

  /** Between 1 and 16: what is in range stays, what is not positive becomes 4, what is too large 16. */
  function NormalizePollConcurrency(n: int): (r: int)
    ensures 1 <= r <= 16 && (r == n || r == if n < r then 4 else 16) && (1 <= n <= 16 ==> r == n)
  {
    if n <= 0 then 4 else if n > 16 then 16 else n
  }

  /** What every accepted device has: a security mode and a poll concurrency in range. */
  function Completed(dev: Dev): Dev {
    dev.(security := if dev.security == "" then "None" else dev.security,
         pollConcurrency := NormalizePollConcurrency(dev.pollConcurrency))
  }

  // ---- which tag arrays a device list holds -----------------------------------------------

  ghost function Arrays(devices: seq<Dev>): set<array<Tag>> {
    set i | 0 <= i < |devices| :: devices[i].tags.arr
  }

  /** Slices are within their arrays and no two devices share one. */
  ghost predicate Separate(devices: seq<Dev>) {
    (forall i | 0 <= i < |devices| :: devices[i].tags.Valid())
    && forall i, j | 0 <= i < j < |devices| :: devices[i].tags.arr != devices[j].tags.arr
  }

  lemma SeparatePut(devices: seq<Dev>, k: nat, dev: Dev)
    requires Separate(devices) && k < |devices| && dev.tags.Valid()
    requires forall i | 0 <= i < |devices| && i != k :: devices[i].tags.arr != dev.tags.arr
    ensures Separate(devices[k := dev]) && Arrays(devices[k := dev]) <= Arrays(devices) + {dev.tags.arr}
  {
  }

  lemma SeparateAdd(devices: seq<Dev>, dev: Dev)
    requires Separate(devices) && dev.tags.Valid() && dev.tags.arr !in Arrays(devices)
    ensures Separate(devices + [dev]) && Arrays(devices + [dev]) == Arrays(devices) + {dev.tags.arr}
  {
    var all := devices + [dev];
    assert forall i | 0 <= i < |devices| :: all[i] == devices[i];
    assert all[|devices|] == dev;
    forall i | 0 <= i < |devices| ensures devices[i].tags.arr in Arrays(all) {
      assert all[i].tags.arr in Arrays(all);
    }
  }

  lemma SeparatePrefix(devices: seq<Dev>, n: nat)
    requires Separate(devices) && n <= |devices|
    ensures Separate(devices[..n]) && Arrays(devices[..n]) <= Arrays(devices)
    ensures n < |devices| ==> devices[n].tags.arr !in Arrays(devices[..n])
  {
  }

  // ---- UpsertDevice and DeleteDevice --------------------------------------------------------

  /** Empty tags and an empty password keep the previous ones. */
  function Kept(put: Dev, prev: Dev): Dev {
    put.(tags := if put.tags.len == 0 then prev.tags else put.tags,
         password := if put.password == "" then prev.password else put.password)
  }

  function Placed(devices: seq<Dev>, put: Dev): seq<Dev> {
    match FindDevice(devices, put.id)
    case None => devices + [put]
    case Some(k) => devices[k := Kept(put, devices[k])]
  }

  function WithDevice(devices: seq<Dev>, dev: Dev): seq<Dev> {
    Placed(devices, Completed(dev))
  }

  /** What an accepted device is stored with, given the tags and the password it gets. */
  ghost predicate StoredAs(x: Dev, dev: Dev, tags: Slice, password: string) {
    && x.id == dev.id && x.endpoint == dev.endpoint && x.username == dev.username
    && x.security == (if dev.security != "" then dev.security else "None")
    && x.pollConcurrency == (if dev.pollConcurrency <= 0 then 4 else if dev.pollConcurrency > 16 then 16 else dev.pollConcurrency)
    && x.tags == tags && x.password == password
  }

  /**
   An upserted device takes the place of the first one with its id, whose tags it keeps when it
   brings none and whose password it keeps when it brings none; a new one goes to the end.
   */
  lemma WithDeviceMeans(devices: seq<Dev>, dev: Dev)
    ensures match FindDevice(devices, dev.id)
            case None =>
              && |WithDevice(devices, dev)| == |devices| + 1
              && WithDevice(devices, dev)[..|devices|] == devices
              && StoredAs(WithDevice(devices, dev)[|devices|], dev, dev.tags, dev.password)
            case Some(k) =>
              && |WithDevice(devices, dev)| == |devices|
              && (forall i | 0 <= i < |devices| && i != k :: WithDevice(devices, dev)[i] == devices[i])
              && StoredAs(WithDevice(devices, dev)[k], dev,
                          if dev.tags.len > 0 then dev.tags else devices[k].tags,
                          if dev.password != "" then dev.password else devices[k].password)
  {
  }

  /** The device's array is no other device's. */
  ghost predicate Unshared(devices: seq<Dev>, dev: Dev) {
    forall i | 0 <= i < |devices| :: devices[i].tags.arr == dev.tags.arr ==> FindDevice(devices, dev.id) == Some(i)
  }

  lemma WithDeviceIsSeparate(devices: seq<Dev>, dev: Dev)
    requires Separate(devices) && dev.tags.Valid() && Unshared(devices, dev)
    ensures Separate(WithDevice(devices, dev)) && Arrays(WithDevice(devices, dev)) <= Arrays(devices) + {dev.tags.arr}
  {
    match FindDevice(devices, dev.id) {
      case None => SeparateAdd(devices, Completed(dev));
      case Some(k) => SeparatePut(devices, k, Kept(Completed(dev), devices[k]));
    }
  }

  function WithoutDevice(devices: seq<Dev>, id: string): seq<Dev> {
    if devices == [] then []
    else
      var n := |devices| - 1;
      if devices[n].id == id then WithoutDevice(devices[..n], id) else WithoutDevice(devices[..n], id) + [devices[n]]
  }

  /** Exactly the devices with the id go; without one nothing does. */
  lemma {:induction false} WithoutDeviceRemovesIt(devices: seq<Dev>, id: string)
    ensures forall d :: d in WithoutDevice(devices, id) <==> d in devices && d.id != id
  {
    if devices != [] {
      var n := |devices| - 1;
      WithoutDeviceRemovesIt(devices[..n], id);
      assert devices == devices[..n] + [devices[n]];
    }
  }

  /** The others keep their order. */
  lemma {:induction false} WithoutDeviceOfConcat(a: seq<Dev>, b: seq<Dev>, id: string)
    ensures WithoutDevice(a + b, id) == WithoutDevice(a, id) + WithoutDevice(b, id)
  {
    if b == [] {
      assert a + b == a;
    } else {
      var n := |b| - 1;
      WithoutDeviceOfConcat(a, b[..n], id);
      assert (a + b)[..|a + b| - 1] == a + b[..n];
    }
  }

  lemma {:induction false} WithoutDeviceShortens(devices: seq<Dev>, id: string)
    ensures var rest := WithoutDevice(devices, id);
            && |rest| <= |devices| && (|rest| == |devices| <==> FindDevice(devices, id).None?)
            && (rest == devices <==> FindDevice(devices, id).None?)
  {
    if devices != [] {
      var n := |devices| - 1;
      WithoutDeviceShortens(devices[..n], id);
      assert devices == devices[..n] + [devices[n]];
      FindInPrefix(devices, id);
    }
  }

  lemma WithoutDeviceNext(devices: seq<Dev>, i: nat, id: string)
    requires i < |devices|
    ensures WithoutDevice(devices[..i + 1], id) ==
            if devices[i].id == id then WithoutDevice(devices[..i], id) else WithoutDevice(devices[..i], id) + [devices[i]]
  {
    assert devices[..i + 1][..i] == devices[..i];
  }

  lemma FindInPrefix(devices: seq<Dev>, id: string)
    requires devices != []
    ensures var n := |devices| - 1;
            FindDevice(devices, id).None? <==> FindDevice(devices[..n], id).None? && devices[n].id != id
  {
    var f, g := FindDevice(devices, id), FindDevice(devices[..|devices| - 1], id);
    if g.Some? { assert devices[g.value].id == id; }
    if f.Some? && f.value < |devices| - 1 { assert devices[..|devices| - 1][f.value].id == id; }
  }

  lemma {:induction false} WithoutDeviceIsSeparate(devices: seq<Dev>, id: string)
    requires Separate(devices)
    ensures Separate(WithoutDevice(devices, id)) && Arrays(WithoutDevice(devices, id)) <= Arrays(devices)
  {
    if devices != [] {
      var n := |devices| - 1;
      SeparatePrefix(devices, n);
      WithoutDeviceIsSeparate(devices[..n], id);
      if devices[n].id != id {
        SeparateAdd(WithoutDevice(devices[..n], id), devices[n]);
        assert devices[n].tags.arr in Arrays(devices);
      }
    }
  }

  /** After i turns of a compaction: the kept devices in front, the rest not yet touched. */
  ghost predicate Compacting(now: seq<Dev>, before: seq<Dev>, kept: nat, i: nat, id: string) {
    && |now| == |before| && kept <= i <= |before|
    && now[..kept] == WithoutDevice(before[..i], id) && now[i..] == before[i..]
  }

  lemma CompactingKeeps(now: seq<Dev>, before: seq<Dev>, kept: nat, i: nat, id: string)
    requires Compacting(now, before, kept, i, id) && i < |now| && before[i].id != id
    ensures now[i] == before[i] && Compacting(now[kept := now[i]], before, kept + 1, i + 1, id)
  {
    WithoutDeviceNext(before, i, id);
    assert now[i..][0] == before[i..][0] && now[i..][1..] == before[i..][1..];
    assert now[i + 1..] == before[i + 1..];
    assert now[kept := now[i]][..kept + 1] == now[..kept] + [now[i]];
    assert now[kept := now[i]][i + 1..] == now[i + 1..];
  }

  lemma CompactingSkips(now: seq<Dev>, before: seq<Dev>, kept: nat, i: nat, id: string)
    requires Compacting(now, before, kept, i, id) && i < |now| && before[i].id == id
    ensures now[i] == before[i] && Compacting(now, before, kept, i + 1, id)
  {
    WithoutDeviceNext(before, i, id);
    assert now[i..][0] == before[i..][0] && now[i..][1..] == before[i..][1..];
    assert now[i + 1..] == before[i + 1..];
  }

  /** DeleteDevice's compaction: the kept devices are moved to the front of the same array. */
  method CompactDevices(arr: array<Dev>, len: nat, id: string) returns (kept: nat, found: bool)
    requires len <= arr.Length
    modifies arr
    ensures kept <= len && arr[..kept] == WithoutDevice(old(arr[..len]), id)
    ensures found <==> FindDevice(old(arr[..len]), id).Some?
    ensures !found ==> kept == len
  {
    ghost var before := arr[..len];
    kept, found := 0, false;
    for i := 0 to len
      invariant Compacting(arr[..len], before, kept, i, id) && (found <==> kept < i)
    {
      ghost var now := arr[..len];
      assert arr[i] == now[i] == now[i..][0] == before[i..][0];
      if arr[i].id == id {
        CompactingSkips(now, before, kept, i, id);
        found := true;
        continue;
      }
      CompactingKeeps(now, before, kept, i, id);
      arr[kept] := arr[i];
      assert arr[..len] == now[kept := now[i]];
      kept := kept + 1;
    }
    assert before[..len] == before && arr[..kept] == arr[..len][..kept];
    WithoutDeviceShortens(before, id);
  }

  // ---- ApplyProject -----------------------------------------------------------------------

  function LastDevice(devices: seq<Dev>, id: string): (r: Option<nat>)
    ensures r.Some? ==> r.value < |devices| && devices[r.value].id == id
    ensures r.Some? ==> forall i | r.value < i < |devices| :: devices[i].id != id
    ensures r.None? ==> forall i | 0 <= i < |devices| :: devices[i].id != id
  {
    if devices == [] then None
    else
      var n := |devices| - 1;
      if devices[n].id == id then Some(n) else LastDevice(devices[..n], id)
  }

  function PasswordOf(devices: seq<Dev>, id: string): string {
    match LastDevice(devices, id) case None => "" case Some(i) => devices[i].password
  }

  /** A project device replaces the last one with its id or is added; one without id or endpoint is skipped. */
  function ProjectOne(devices: seq<Dev>, d: Dev, password: string, replace: bool): seq<Dev> {
    if d.id == "" || d.endpoint == "" then devices
    else
      var put := Completed(d).(password := password);
      match LastDevice(devices, d.id)
      case None => devices + [put]
      case Some(i) => devices[i := if !replace && d.tags.len == 0 then put.(tags := devices[i].tags) else put]
  }

  function Projected(start: seq<Dev>, project: seq<Dev>, prev: seq<Dev>, replace: bool): seq<Dev> {
    if project == [] then start
    else
      var d := project[|project| - 1];
      ProjectOne(Projected(start, project[..|project| - 1], prev, replace), d, PasswordOf(prev, d.id), replace)
  }

  /** No password is taken from the project: a device is as it was, or has the password its id had before. */
  lemma {:induction false} ProjectTakesNoPassword(start: seq<Dev>, project: seq<Dev>, prev: seq<Dev>, replace: bool)
    ensures forall d | d in Projected(start, project, prev, replace) :: d in start || d.password == PasswordOf(prev, d.id)
  {
    if project != [] {
      ProjectTakesNoPassword(start, project[..|project| - 1], prev, replace);
    }
  }

  /** A project device is accepted if it has an id and an endpoint. */
  predicate Accepted(d: Dev) {
    d.id != "" && d.endpoint != ""
  }

  /**
   One project device: it takes the place of the last one with its id, whose tags it keeps only in a
   merge and when it brings none, or goes to the end; the password is the one given.
   */
  lemma ProjectOneMeans(devices: seq<Dev>, d: Dev, password: string, replace: bool)
    ensures !Accepted(d) ==> ProjectOne(devices, d, password, replace) == devices
    ensures Accepted(d) ==>
      match LastDevice(devices, d.id)
      case None =>
        && |ProjectOne(devices, d, password, replace)| == |devices| + 1
        && ProjectOne(devices, d, password, replace)[..|devices|] == devices
        && StoredAs(ProjectOne(devices, d, password, replace)[|devices|], d, d.tags, password)
      case Some(k) =>
        && |ProjectOne(devices, d, password, replace)| == |devices|
        && (forall i | 0 <= i < |devices| && i != k :: ProjectOne(devices, d, password, replace)[i] == devices[i])
        && StoredAs(ProjectOne(devices, d, password, replace)[k], d,
                    if replace || d.tags.len > 0 then d.tags else devices[k].tags, password)
  {
  }

  /** Devices keep their places, and those whose id the project does not have keep everything. */
  lemma {:induction false} ProjectKeepsOthers(start: seq<Dev>, project: seq<Dev>, prev: seq<Dev>, replace: bool, i: nat)
    requires i < |start|
    ensures var after := Projected(start, project, prev, replace);
            && |start| <= |after| && after[i].id == start[i].id
            && ((forall k | 0 <= k < |project| :: project[k].id != start[i].id) ==> after[i] == start[i])
  {
    if project != [] {
      var n := |project| - 1;
      ProjectKeepsOthers(start, project[..n], prev, replace, i);
      ProjectOneMeans(Projected(start, project[..n], prev, replace), project[n], PasswordOf(prev, project[n].id), replace);
    }
  }

  /** Each accepted device that is the last of its id in the project ends up stored, with the password its id had before. */
  lemma {:induction false} ProjectHasLast(start: seq<Dev>, project: seq<Dev>, prev: seq<Dev>, replace: bool, k: nat)
    returns (at: nat, tags: Slice)
    requires k < |project| && Accepted(project[k])
    requires forall j | k < j < |project| :: project[j].id != project[k].id
    ensures var after := Projected(start, project, prev, replace);
            && at < |after| && LastDevice(after, project[k].id) == Some(at)
            && StoredAs(after[at], project[k], tags, PasswordOf(prev, project[k].id))
            && (replace || project[k].tags.len > 0 ==> tags == project[k].tags)
  {
    var n := |project| - 1;
    var before := Projected(start, project[..n], prev, replace);
    var after := Projected(start, project, prev, replace);
    ProjectOneMeans(before, project[n], PasswordOf(prev, project[n].id), replace);
    if k == n {
      at := match LastDevice(before, project[n].id) case None => |before| case Some(i) => i;
      tags := after[at].tags;
      LastAt(after, at, project[n].id);
    } else {
      at, tags := ProjectHasLast(start, project[..n], prev, replace, k);
      if Accepted(project[n]) && LastDevice(before, project[n].id).Some? {
        assert LastDevice(before, project[n].id).value != at;
      }
      LastAt(after, at, project[k].id);
    }
  }

  lemma LastAt(devices: seq<Dev>, at: nat, id: string)
    requires at < |devices| && devices[at].id == id && forall i | at < i < |devices| :: devices[i].id != id
    ensures LastDevice(devices, id) == Some(at)
  {
  }

  lemma ProjectOneIsSeparate(devices: seq<Dev>, d: Dev, password: string, replace: bool)
    requires Separate(devices) && d.tags.Valid() && d.tags.arr !in Arrays(devices)
    ensures var after := ProjectOne(devices, d, password, replace);
            Separate(after) && Arrays(after) <= Arrays(devices) + {d.tags.arr}
  {
    if d.id != "" && d.endpoint != "" {
      var put := Completed(d).(password := password);
      match LastDevice(devices, d.id) {
        case None => SeparateAdd(devices, put);
        case Some(i) =>
          assert forall j | 0 <= j < |devices| :: devices[j].tags.arr in Arrays(devices);
          SeparatePut(devices, i, put);
          SeparatePut(devices, i, put.(tags := devices[i].tags));
      }
    }
  }

  lemma {:induction false} ProjectedIsSeparate(start: seq<Dev>, project: seq<Dev>, prev: seq<Dev>, replace: bool)
    requires Separate(start) && Separate(project) && Arrays(start) !! Arrays(project)
    ensures var after := Projected(start, project, prev, replace);
            Separate(after) && Arrays(after) <= Arrays(start) + Arrays(project)
  {
    if project != [] {
      var n := |project| - 1;
      SeparatePrefix(project, n);
      ProjectedIsSeparate(start, project[..n], prev, replace);
      assert project[n].tags.arr in Arrays(project);
      ProjectOneIsSeparate(Projected(start, project[..n], prev, replace), project[n],
                           PasswordOf(prev, project[n].id), replace);
    }
  }

  /** The index map holds exactly the ids present, each at its last position. */
  ghost predicate Places(byId: map<string, nat>, devices: seq<Dev>) {
    forall id :: LastDevice(devices, id) == if id in byId then Some(byId[id]) else None
  }

  lemma ProjectOneByMap(devices: seq<Dev>, d: Dev, password: string, replace: bool, byId: map<string, nat>)
    requires Places(byId, devices) && d.id != "" && d.endpoint != ""
    ensures var put, after := Completed(d).(password := password), ProjectOne(devices, d, password, replace);
            if d.id !in byId then after == devices + [put]
            else
              && byId[d.id] < |devices| && devices[byId[d.id]].id == d.id
              && after == devices[byId[d.id] :=
                   if !replace && d.tags.len == 0 then put.(tags := devices[byId[d.id]].tags) else put]
  {
    assert LastDevice(devices, d.id) == if d.id in byId then Some(byId[d.id]) else None;
  }

  lemma PlacesAfterAdd(byId: map<string, nat>, devices: seq<Dev>, d: Dev)
    requires Places(byId, devices)
    ensures Places(byId[d.id := |devices|], devices + [d])
  {
    assert (devices + [d])[..|devices|] == devices;
  }

  lemma {:induction false} LastAfterPut(devices: seq<Dev>, i: nat, d: Dev, id: string)
    requires i < |devices| && devices[i].id == d.id
    ensures LastDevice(devices[i := d], id) == LastDevice(devices, id)
  {
    var n := |devices| - 1;
    if i < n {
      LastAfterPut(devices[..n], i, d, id);
      assert devices[i := d][..n] == devices[..n][i := d];
    } else {
      assert devices[i := d][..n] == devices[..n];
    }
  }

  lemma PlacesAfterPut(byId: map<string, nat>, devices: seq<Dev>, i: nat, d: Dev)
    requires Places(byId, devices) && i < |devices| && devices[i].id == d.id
    ensures Places(byId, devices[i := d])
  {
    forall id ensures LastDevice(devices[i := d], id) == LastDevice(devices, id) {
      LastAfterPut(devices, i, d, id);
    }
  }

  method IndexDevices(arr: array<Dev>, len: nat) returns (byId: map<string, nat>)
    requires len <= arr.Length
    ensures Places(byId, arr[..len])
  {
    byId := map[];
    for i := 0 to len
      invariant Places(byId, arr[..i])
    {
      PlacesAfterAdd(byId, arr[..i], arr[i]);
      assert arr[..i + 1] == arr[..i] + [arr[i]];
      byId := byId[arr[i].id := i];
    }
  }

  ghost predicate HoldsPasswords(prevPass: map<string, string>, devices: seq<Dev>) {
    forall id :: PasswordOf(devices, id) == if id in prevPass then prevPass[id] else ""
  }

  lemma PasswordsAfterAdd(prevPass: map<string, string>, devices: seq<Dev>, d: Dev)
    requires HoldsPasswords(prevPass, devices)
    ensures HoldsPasswords(prevPass[d.id := d.password], devices + [d])
  {
    assert (devices + [d])[..|devices|] == devices;
  }

  method CollectPasswords(arr: array<Dev>, len: nat) returns (prevPass: map<string, string>)
    requires len <= arr.Length
    ensures HoldsPasswords(prevPass, arr[..len])
  {
    prevPass := map[];
    for i := 0 to len
      invariant HoldsPasswords(prevPass, arr[..i])
    {
      PasswordsAfterAdd(prevPass, arr[..i], arr[i]);
      assert arr[..i + 1] == arr[..i] + [arr[i]];
      prevPass := prevPass[arr[i].id := arr[i].password];
    }
  }
}
