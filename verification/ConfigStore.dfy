/**
 The mutable configuration store: a slice of devices whose tag slices live on the heap too, all
 edited in place, and snapshots that must not see those edits.
 */
module ConfigStore {
  import opened Wrappers
  import opened Core
  import opened TagLists
  import opened TagSlices
  import opened DeviceSlices

  datatype Error = NoError | DeviceNotFound | TagNotFound | NoMatchingTags | Invalid | SaveFailed

  method BuildFilter(tagIds: seq<string>) returns (filter: set<string>)
    ensures filter == Filter(tagIds)
  {
    filter := {};
    for i := 0 to |tagIds|
      invariant filter == Filter(tagIds[..i])
    {
      if tagIds[i] != "" {
        filter := filter + {tagIds[i]};
      }
      assert tagIds[..i + 1] == tagIds[..i] + [tagIds[i]];
    }
    assert tagIds[..|tagIds|] == tagIds;
  }

  class Store {
    var arr: array<Dev>
    var len: nat
    var gen: nat
    ghost var devices: seq<Dev> // what the slice holds

    ghost predicate Stored()
      reads this`arr, this`len, this`devices, arr
    {
      len <= arr.Length && arr[..len] == devices
    }

    ghost predicate Valid()
      reads this`arr, this`len, this`devices, arr
    {
      Stored() && Separate(devices)
    }

    ghost function Footprint(): set<array<Tag>>
      reads this`devices
    {
      Arrays(devices)
    }

    ghost function Tags(k: nat): seq<Tag>
      requires Separate(devices) && k < |devices|
      reads this`devices, Footprint()
    {
      devices[k].tags.Tags()
    }

    /** A store around the devices of a loaded file. */
    constructor (file: array<Dev>)
      requires Separate(file[..])
      ensures Valid() && arr == file && devices == file[..] && gen == 1
    {
      arr, len, gen, devices := file, file.Length, 1, file[..];
    }

    /** Everything but device k is as before, and device k differs at most in its tags. */
    twostate predicate OnlyTagsOf(k: nat)
      requires old(Separate(devices)) && Separate(devices) && k < |old(devices)|
      reads this`devices, Footprint()
    {
      && |devices| == |old(devices)|
      && devices[k].(tags := old(devices[k].tags)) == old(devices[k])
      && forall i | 0 <= i < |devices| && i != k :: devices[i] == old(devices[i]) && Tags(i) == old(Tags(i))
    }

    twostate predicate NothingChanged()
      requires old(Separate(devices)) && Separate(devices)
      reads this, Footprint()
    {
      && devices == old(devices) && gen == old(gen)
      && forall i | 0 <= i < |devices| :: Tags(i) == old(Tags(i))
    }

    method DeviceIndex(deviceId: string) returns (idx: Option<nat>)
      requires Stored()
      ensures idx == FindDevice(devices, deviceId)
    {
      for i := 0 to len
        invariant forall j | 0 <= j < i :: devices[j].id != deviceId
      {
        assert arr[i] == devices[i];
        if arr[i].id == deviceId {
          return Some(i);
        }
      }
      return None;
    }

    /** Device k is replaced where it is. */
    method PutDevice(k: nat, d: Dev)
      requires Stored() && k < len
      modifies this`devices, arr
      ensures Stored() && devices == old(devices)[k := d]
    {
      arr[k] := d;
      devices := devices[k := d];
    }

    /** append: in place while the array has room, otherwise into a larger copy. */
    method AddDevice(d: Dev)
      requires Stored()
      modifies this`arr, this`len, this`devices, arr
      ensures Stored() && devices == old(devices) + [d] && (arr == old(arr) || fresh(arr))
    {
      if len < arr.Length {
        arr[len] := d;
      } else {
        var capacity: nat :| capacity > len;
        var kept := arr[..];
        arr := new Dev[capacity](i requires 0 <= i < capacity => if i < |kept| then kept[i] else d);
      }
      len, devices := len + 1, devices + [d];
    }

    /** `dev.Tags = r` for a slice over the device's own array or a new one. */
    method PutSlice(k: nat, r: Slice)
      requires Valid() && k < |devices| && r.Valid()
      requires r.arr == devices[k].tags.arr || r.arr !in Footprint()
      modifies this`devices, arr
      ensures Valid() && devices == old(devices)[k := old(devices[k]).(tags := r)]
      ensures Footprint() <= old(Footprint()) + {r.arr}
    {
      SeparatePut(devices, k, devices[k].(tags := r));
      PutDevice(k, arr[k].(tags := r));
    }

    /** saveLocked and the generation counter: a failed save leaves the edit in memory. */
    method SaveAndBump(saveOk: bool) returns (err: Error)
      modifies this`gen
      ensures err == if saveOk then NoError else SaveFailed
      ensures gen == if saveOk then old(gen) + 1 else old(gen)
    {
      if !saveOk {
        return SaveFailed;
      }
      gen := gen + 1;
      err := NoError;
    }

    method MergeAt(k: nat, tags: seq<Tag>, replace: bool) returns (added: nat, updated: nat)
      requires Valid() && k < |devices|
      modifies this`devices, arr, Footprint()
      ensures Valid() && arr == old(arr) && fresh(Footprint() - old(Footprint()))
      ensures OnlyTagsOf(k) && Tags(k) == Merged(if replace then [] else old(Tags(k)), tags)
      ensures added + updated == |tags| && |Tags(k)| == (if replace then 0 else |old(Tags(k))|) + added
    {
      var s := arr[k].tags;
      if replace {
        s := Fresh([]);
      }
      var r;
      r, added, updated := MergeInto(s, tags);
      PutSlice(k, r);
    }

    method MergeTags(deviceId: string, tags: seq<Tag>, replace: bool, saveOk: bool)
      returns (added: nat, updated: nat, err: Error)
      requires Valid()
      modifies this, arr, Footprint()
      ensures Valid() && arr == old(arr) && fresh(Footprint() - old(Footprint()))
      ensures FindDevice(old(devices), deviceId).None? ==> err == DeviceNotFound && added == updated == 0 && NothingChanged()
      ensures FindDevice(old(devices), deviceId).Some? ==>
        var k := FindDevice(old(devices), deviceId).value;
        var before := if replace then [] else old(Tags(k));
        && OnlyTagsOf(k) && Tags(k) == Merged(before, tags)
        && err == (if saveOk then NoError else SaveFailed)
        && gen == old(gen) + (if saveOk then 1 else 0)
        && (saveOk ==> added + updated == |tags| && |Tags(k)| == |before| + added)
        && (!saveOk ==> added == updated == 0)
    {
      var idx := DeviceIndex(deviceId);
      if idx.None? {
        return 0, 0, DeviceNotFound;
      }
      added, updated := MergeAt(idx.value, tags, replace);
      err := SaveAndBump(saveOk);
      if !saveOk {
        added, updated := 0, 0;
      }
    }

    method UpsertAt(k: nat, tag: Tag)
      requires Valid() && k < |devices|
      modifies this`devices, arr, Footprint()
      ensures Valid() && arr == old(arr) && fresh(Footprint() - old(Footprint()))
      ensures OnlyTagsOf(k) && Tags(k) == UpsertOne(old(Tags(k)), tag)
    {
      var r := TagSlices.Upsert(arr[k].tags, tag);
      PutSlice(k, r);
    }

    method UpsertChecked(deviceId: string, tag: Tag, saveOk: bool) returns (err: Error)
      requires Valid()
      modifies this, arr, Footprint()
      ensures Valid() && arr == old(arr) && fresh(Footprint() - old(Footprint()))
      ensures err == DeviceNotFound <==> FindDevice(old(devices), deviceId).None?
      ensures err == DeviceNotFound ==> NothingChanged()
      ensures FindDevice(old(devices), deviceId).Some? ==>
        var k := FindDevice(old(devices), deviceId).value;
        && OnlyTagsOf(k) && Tags(k) == UpsertOne(old(Tags(k)), tag)
        && err == (if saveOk then NoError else SaveFailed)
        && gen == old(gen) + (if saveOk then 1 else 0)
    {
      var idx := DeviceIndex(deviceId);
      if idx.None? {
        return DeviceNotFound;
      }
      UpsertAt(idx.value, tag);
      err := SaveAndBump(saveOk);
    }

    /** A tag that fails its checks is refused before the device is looked up. */
    method UpsertTag(deviceId: string, tag: Tag, rules: Rules, saveOk: bool) returns (err: Error)
      requires Valid()
      modifies this, arr, Footprint()
      ensures Valid() && arr == old(arr) && fresh(Footprint() - old(Footprint()))
      ensures err == Invalid <==> Prepared(tag, rules).None?
      ensures err == DeviceNotFound <==> Prepared(tag, rules).Some? && FindDevice(old(devices), deviceId).None?
      ensures err == Invalid || err == DeviceNotFound ==> NothingChanged()
      ensures Prepared(tag, rules).Some? && FindDevice(old(devices), deviceId).Some? ==>
        var k := FindDevice(old(devices), deviceId).value;
        && OnlyTagsOf(k) && Tags(k) == UpsertOne(old(Tags(k)), Prepared(tag, rules).value)
        && err == (if saveOk then NoError else SaveFailed)
        && gen == old(gen) + (if saveOk then 1 else 0)
    {
      var put := Prepared(tag, rules);
      if put.None? {
        return Invalid;
      }
      err := UpsertChecked(deviceId, put.value, saveOk);
    }

    method DeleteAt(k: nat, tagId: string) returns (found: bool)
      requires Valid() && k < |devices|
      modifies this`devices, arr, Footprint()
      ensures Valid() && Footprint() <= old(Footprint())
      ensures OnlyTagsOf(k) && Tags(k) == Without(old(Tags(k)), tagId) && (found <==> HasId(old(Tags(k)), tagId))
    {
      ghost var before := Tags(k);
      var out;
      out, found := Compact(arr[k].tags, tagId);
      if !found {
        WithoutRemovesTheId(before, tagId);
        return;
      }
      PutSlice(k, out);
    }

    method DeleteTag(deviceId: string, tagId: string, saveOk: bool) returns (err: Error)
      requires Valid()
      modifies this, arr, Footprint()
      ensures Valid() && arr == old(arr) && Footprint() <= old(Footprint())
      ensures FindDevice(old(devices), deviceId).None? ==> err == DeviceNotFound && NothingChanged()
      ensures FindDevice(old(devices), deviceId).Some? ==>
        var k := FindDevice(old(devices), deviceId).value;
        && OnlyTagsOf(k) && Tags(k) == Without(old(Tags(k)), tagId)
        && (err == TagNotFound <==> !HasId(old(Tags(k)), tagId))
        && (err != TagNotFound ==> err == if saveOk then NoError else SaveFailed)
        && gen == old(gen) + (if err == NoError then 1 else 0)
    {
      var idx := DeviceIndex(deviceId);
      if idx.None? {
        return DeviceNotFound;
      }
      var found := DeleteAt(idx.value, tagId);
      if !found {
        return TagNotFound;
      }
      err := SaveAndBump(saveOk);
    }

    /** SetTagsSimulate and SetTagsWritable are this with a one-field edit. */
    method SetTagsBool(deviceId: string, tagIds: seq<string>, apply: Tag -> Tag, saveOk: bool)
      returns (updated: nat, err: Error)
      requires Valid()
      modifies this, arr, Footprint()
      ensures Valid() && arr == old(arr) && devices == old(devices)
      ensures FindDevice(old(devices), deviceId).None? ==> err == DeviceNotFound && updated == 0 && NothingChanged()
      ensures FindDevice(old(devices), deviceId).Some? ==>
        var k := FindDevice(old(devices), deviceId).value;
        && OnlyTagsOf(k) && Tags(k) == Applied(old(Tags(k)), Filter(tagIds), apply)
        && (err == NoMatchingTags <==> Filter(tagIds) != {} && CountSelected(old(Tags(k)), Filter(tagIds)) == 0)
        && (err != NoMatchingTags ==> err == if saveOk then NoError else SaveFailed)
        && gen == old(gen) + (if err == NoError then 1 else 0)
        && updated == if err == NoError then CountSelected(old(Tags(k)), Filter(tagIds)) else 0
    {
      var idx := DeviceIndex(deviceId);
      if idx.None? {
        return 0, DeviceNotFound;
      }
      var filter := BuildFilter(tagIds);
      updated := ApplyInPlace(arr[idx.value].tags, filter, apply);
      if filter != {} && updated == 0 && |tagIds| > 0 {
        return 0, NoMatchingTags;
      }
      err := SaveAndBump(saveOk);
      if !saveOk {
        updated := 0;
      }
    }

    method SetDeviceTags(deviceId: string, tags: seq<Tag>, saveOk: bool) returns (err: Error)
      requires Valid()
      modifies this, arr
      ensures Valid() && arr == old(arr) && fresh(Footprint() - old(Footprint()))
      ensures FindDevice(old(devices), deviceId).None? ==> err == DeviceNotFound && NothingChanged()
      ensures FindDevice(old(devices), deviceId).Some? ==>
        var k := FindDevice(old(devices), deviceId).value;
        && OnlyTagsOf(k) && Tags(k) == tags
        && err == (if saveOk then NoError else SaveFailed)
        && gen == old(gen) + (if saveOk then 1 else 0)
    {
      var idx := DeviceIndex(deviceId);
      if idx.None? {
        return DeviceNotFound;
      }
      var copy := Fresh(tags);
      PutSlice(idx.value, copy);
      err := SaveAndBump(saveOk);
    }

    method ClearDeviceTags(deviceId: string, saveOk: bool) returns (n: nat, err: Error)
      requires Valid()
      modifies this, arr
      ensures Valid() && arr == old(arr) && fresh(Footprint() - old(Footprint()))
      ensures FindDevice(old(devices), deviceId).None? ==> n == 0 && err == DeviceNotFound && NothingChanged()
      ensures FindDevice(old(devices), deviceId).Some? ==>
        var k := FindDevice(old(devices), deviceId).value;
        && OnlyTagsOf(k) && Tags(k) == []
        && err == (if saveOk then NoError else SaveFailed)
        && gen == old(gen) + (if saveOk then 1 else 0)
        && n == if saveOk then |old(Tags(k))| else 0
    {
      var idx := DeviceIndex(deviceId);
      if idx.None? {
        return 0, DeviceNotFound;
      }
      n := arr[idx.value].tags.len;
      var none := Fresh([]);
      PutSlice(idx.value, none);
      err := SaveAndBump(saveOk);
      if !saveOk {
        n := 0;
      }
    }

    /** The caller's slice becomes the store's: nothing is copied, so a slice in use elsewhere is then shared. */
    method UpsertDevice(dev: Dev, saveOk: bool) returns (err: Error)
      requires Valid() && dev.tags.Valid()
      modifies this, arr
      ensures Stored() && (arr == old(arr) || fresh(arr))
      ensures Unshared(old(devices), dev) ==> Valid() && Footprint() <= old(Footprint()) + {dev.tags.arr}
      ensures err == Invalid <==> dev.id == "" || dev.endpoint == ""
      ensures err == Invalid ==> devices == old(devices) && gen == old(gen)
      ensures err != Invalid ==>
        && err == (if saveOk then NoError else SaveFailed)
        && gen == old(gen) + (if saveOk then 1 else 0)
        && devices == WithDevice(old(devices), dev)
    {
      if dev.id == "" || dev.endpoint == "" {
        return Invalid;
      }
      var put := dev.(security := if dev.security == "" then "None" else dev.security,
                      pollConcurrency := NormalizePollConcurrency(dev.pollConcurrency));
      if Unshared(devices, dev) { WithDeviceIsSeparate(devices, dev); }
      PlaceDevice(put);
      err := SaveAndBump(saveOk);
    }

    /** The device with that id is replaced where it is, or the device is added. */
    method PlaceDevice(dev: Dev)
      requires Stored()
      modifies this`arr, this`len, this`devices, arr
      ensures Stored() && (arr == old(arr) || fresh(arr)) && devices == Placed(old(devices), dev)
    {
      var put := dev;
      var idx := DeviceIndex(dev.id);
      if idx.Some? {
        var prev := arr[idx.value];
        if put.tags.len == 0 {
          put := put.(tags := prev.tags);
        }
        if put.password == "" {
          put := put.(password := prev.password);
        }
        PutDevice(idx.value, put);
      } else {
        AddDevice(put);
      }
    }

    /** The devices that stay move to the front of the same array. */
    method DeleteDevice(id: string, saveOk: bool) returns (err: Error)
      requires Valid()
      modifies this, arr
      ensures Valid() && arr == old(arr) && Footprint() <= old(Footprint())
      ensures devices == WithoutDevice(old(devices), id)
      ensures err == DeviceNotFound <==> FindDevice(old(devices), id).None?
      ensures err != DeviceNotFound ==> err == if saveOk then NoError else SaveFailed
      ensures gen == old(gen) + (if err == NoError then 1 else 0)
    {
      WithoutDeviceIsSeparate(devices, id);
      WithoutDeviceShortens(devices, id);
      var out, found := CompactDevices(arr, len, id);
      devices := WithoutDevice(devices, id);
      if !found {
        return DeviceNotFound;
      }
      len := out;
      err := SaveAndBump(saveOk);
    }

    /** Devices of a project file replace those of the store, or are merged into them by id. */
    method ApplyProject(project: seq<Dev>, replace: bool, saveOk: bool) returns (err: Error)
      requires Valid()
      modifies this, arr
      ensures Stored() && (arr == old(arr) || fresh(arr))
      ensures devices == Projected(if replace then [] else old(devices), project, old(devices), replace)
      ensures Separate(project) && Arrays(project) !! old(Footprint()) ==>
        Valid() && Footprint() <= old(Footprint()) + Arrays(project)
      ensures err == if saveOk then NoError else SaveFailed
      ensures gen == old(gen) + (if saveOk then 1 else 0)
    {
      ghost var prev, start := devices, if replace then [] else devices;
      if Separate(project) && Arrays(project) !! Footprint() {
        ProjectedIsSeparate(start, project, prev, replace);
      }
      var prevPass := CollectPasswords(arr, len);
      if replace {
        arr, len, devices := new Dev[0], 0, [];
      }
      ApplyEach(project, prevPass, replace, prev);
      err := SaveAndBump(saveOk);
    }

    /** ApplyProject's loop. */
    method ApplyEach(project: seq<Dev>, prevPass: map<string, string>, replace: bool, ghost prev: seq<Dev>)
      requires Stored() && HoldsPasswords(prevPass, prev)
      modifies this`arr, this`len, this`devices, arr
      ensures Stored() && (arr == old(arr) || fresh(arr))
      ensures devices == Projected(old(devices), project, prev, replace)
    {
      var byId := IndexDevices(arr, len);
      ghost var start := devices;
      for c := 0 to |project|
        invariant Stored() && (arr == old(arr) || fresh(arr))
        invariant devices == Projected(start, project[..c], prev, replace) && Places(byId, devices)
      {
        assert project[..c + 1][..c] == project[..c];
        byId := ApplyOne(project[c], prevPass, byId, replace, prev);
      }
      assert project[..|project|] == project;
    }

    /** One turn of ApplyProject's loop. */
    method ApplyOne(dev: Dev, prevPass: map<string, string>, byId: map<string, nat>, replace: bool, ghost prev: seq<Dev>)
      returns (byId': map<string, nat>)
      requires Stored() && Places(byId, devices) && HoldsPasswords(prevPass, prev)
      modifies this`arr, this`len, this`devices, arr
      ensures Stored() && (arr == old(arr) || fresh(arr)) && Places(byId', devices)
      ensures devices == ProjectOne(old(devices), dev, PasswordOf(prev, dev.id), replace)
    {
      byId' := byId;
      if dev.id == "" || dev.endpoint == "" {
        return;
      }
      ProjectOneByMap(devices, dev, PasswordOf(prev, dev.id), replace, byId);
      var d := dev.(security := if dev.security == "" then "None" else dev.security,
                    pollConcurrency := NormalizePollConcurrency(dev.pollConcurrency),
                    password := if dev.id in prevPass then prevPass[dev.id] else "");
      if d.id in byId {
        var i := byId[d.id];
        if !replace && d.tags.len == 0 {
          d := d.(tags := arr[i].tags);
        }
        PlacesAfterPut(byId, devices, i, d);
        PutDevice(i, d);
      } else {
        PlacesAfterAdd(byId, devices, d);
        AddDevice(d);
        byId' := byId[d.id := len - 1];
      }
    }

    /** A copy of the device slice and of every tag slice. */
    method Snapshot() returns (snap: array<Dev>)
      requires Valid()
      ensures fresh(snap) && snap.Length == |devices| && Separate(snap[..])
      ensures forall i | 0 <= i < |devices| :: snap[i].(tags := devices[i].tags) == devices[i]
      ensures forall i | 0 <= i < |devices| :: fresh(snap[i].tags.arr) && snap[i].tags.Tags() == Tags(i)
    {
      var kept := arr[..len];
      snap := new Dev[len](i requires 0 <= i < |kept| => kept[i]);
      for i := 0 to len
        invariant Separate(snap[..i]) && forall j | i <= j < len :: snap[j] == devices[j]
        invariant forall j | 0 <= j < i :: snap[j].(tags := devices[j].tags) == devices[j]
        invariant forall j | 0 <= j < i :: fresh(snap[j].tags.arr) && snap[j].tags.Tags() == Tags(j)
      {
        var s := snap[i].tags;
        var copy := Fresh(s.arr[..s.len]);
        SeparateAdd(snap[..i], snap[i].(tags := copy));
        snap[i] := snap[i].(tags := copy);
        assert snap[..i + 1] == snap[..i] + [snap[i]];
      }
      assert snap[..len] == snap[..];
    }
  }

  // ---- a merge against single upserts ---------------------------------------------------

  /** An accepted tag of a device that is there. */
  method UpsertKnown(store: Store, deviceId: string, ghost k: nat, t: Tag, rules: Rules)
    requires store.Valid() && FindDevice(store.devices, deviceId) == Some(k) && Prepared(t, rules) == Some(t)
    modifies store, store.arr, store.Footprint()
    ensures store.Valid() && store.arr == old(store.arr) && fresh(store.Footprint() - old(store.Footprint()))
    ensures FindDevice(store.devices, deviceId) == Some(k) && store.Tags(k) == UpsertOne(old(store.Tags(k)), t)
  {
    ghost var devices := store.devices;
    var err := store.UpsertTag(deviceId, t, rules, true);
    SameIdsSameIndex(devices, store.devices, deviceId);
  }

  /** UpsertTag once per tag, in order. */
  method UpsertEach(store: Store, deviceId: string, ts: seq<Tag>, rules: Rules)
    requires store.Valid() && FindDevice(store.devices, deviceId).Some?
    requires forall i | 0 <= i < |ts| :: Prepared(ts[i], rules) == Some(ts[i])
    modifies store, store.arr, store.Footprint()
    ensures store.Valid() && fresh(store.Footprint() - old(store.Footprint()))
    ensures FindDevice(store.devices, deviceId) == FindDevice(old(store.devices), deviceId)
    ensures var k := FindDevice(store.devices, deviceId).value;
            store.Tags(k) == TagLists.Upserted(old(store.Tags(k)), ts)
            && (UniqueIds(old(store.Tags(k))) ==> store.Tags(k) == Merged(old(store.Tags(k)), ts))
  {
    ghost var k := FindDevice(store.devices, deviceId).value;
    ghost var before := store.Tags(k);
    for i := 0 to |ts|
      invariant store.Valid() && store.arr == old(store.arr) && fresh(store.Footprint() - old(store.Footprint()))
      invariant FindDevice(store.devices, deviceId) == Some(k)
      invariant store.Tags(k) == TagLists.Upserted(before, ts[..i])
    {
      assert ts[..i + 1][..i] == ts[..i];
      UpsertKnown(store, deviceId, k, ts[i], rules);
    }
    assert ts[..|ts|] == ts;
    if UniqueIds(before) {
      MergeIsUpserts(before, ts);
    }
  }

  lemma {:induction false} SameIdsSameIndex(a: seq<Dev>, b: seq<Dev>, id: string)
    requires |a| == |b| && forall i | 0 <= i < |a| :: a[i].id == b[i].id
    ensures FindDevice(a, id) == FindDevice(b, id)
  {
    if a != [] {
      SameIdsSameIndex(a[1..], b[1..], id);
    }
  }

  // ---- snapshots are isolated -----------------------------------------------------------

  datatype Op =
    | Merge(deviceId: string, tags: seq<Tag>, replace: bool)
    | Upsert(deviceId: string, tag: Tag)
    | Delete(deviceId: string, tagId: string)
    | SetBool(deviceId: string, tagIds: seq<string>, apply: Tag -> Tag)
    | SetTags(deviceId: string, tags: seq<Tag>)
    | Clear(deviceId: string)
    | Put(dev: Device)
    | Drop(deviceId: string)
    | Apply(project: seq<Device>, replace: bool)

  /** Decoded devices: each has a tag slice of its own. */
  method Decode(decoded: seq<Device>) returns (devs: seq<Dev>)
    ensures |devs| == |decoded| && Separate(devs) && fresh(Arrays(devs))
  {
    devs := [];
    for i := 0 to |decoded|
      invariant |devs| == i && Separate(devs) && fresh(Arrays(devs))
    {
      var d := decoded[i];
      var tags := Fresh(d.tags);
      SeparateAdd(devs, Dev(d.id, d.endpoint, d.username, d.password, d.security, d.pollConcurrency, tags));
      devs := devs + [Dev(d.id, d.endpoint, d.username, d.password, d.security, d.pollConcurrency, tags)];
    }
  }

  /** One operation with arguments of its own, as a decoded request has them. */
  method Perform(store: Store, op: Op, rules: Rules, saveOk: bool)
    requires store.Valid()
    modifies store, store.arr, store.Footprint()
    ensures store.Valid() && (store.arr == old(store.arr) || fresh(store.arr))
    ensures fresh(store.Footprint() - old(store.Footprint()))
  {
    match op {
      case Merge(id, tags, replace) => var _, _, _ := store.MergeTags(id, tags, replace, saveOk);
      case Upsert(id, tag) => var _ := store.UpsertTag(id, tag, rules, saveOk);
      case Delete(id, tagId) => var _ := store.DeleteTag(id, tagId, saveOk);
      case SetBool(id, tagIds, apply) => var _, _ := store.SetTagsBool(id, tagIds, apply, saveOk);
      case SetTags(id, tags) => var _ := store.SetDeviceTags(id, tags, saveOk);
      case Clear(id) => var _, _ := store.ClearDeviceTags(id, saveOk);
      case Put(d) => PutDecoded(store, d, saveOk);
      case Drop(id) => var _ := store.DeleteDevice(id, saveOk);
      case Apply(decoded, replace) => ApplyDecoded(store, decoded, replace, saveOk);
    }
  }

  method PutDecoded(store: Store, d: Device, saveOk: bool)
    requires store.Valid()
    modifies store, store.arr
    ensures store.Valid() && (store.arr == old(store.arr) || fresh(store.arr))
    ensures fresh(store.Footprint() - old(store.Footprint()))
  {
    var devs := Decode([d]);
    assert devs[0].tags.arr in Arrays(devs);
    var _ := store.UpsertDevice(devs[0], saveOk);
  }

  method ApplyDecoded(store: Store, decoded: seq<Device>, replace: bool, saveOk: bool)
    requires store.Valid()
    modifies store, store.arr
    ensures store.Valid() && (store.arr == old(store.arr) || fresh(store.arr))
    ensures fresh(store.Footprint() - old(store.Footprint()))
  {
    var devs := Decode(decoded);
    var _ := store.ApplyProject(devs, replace, saveOk);
  }

  /** The snapshot shares neither its device array nor a tag array with the store. */
  ghost predicate Apart(store: Store, snap: array<Dev>)
    reads store, snap
  {
    snap != store.arr && Separate(snap[..]) && Arrays(snap[..]) !! store.Footprint()
  }

  /** What a snapshot says: its devices, and the tags of each. */
  ghost function TagsOf(snap: array<Dev>): (r: seq<seq<Tag>>)
    requires Separate(snap[..])
    reads snap, Arrays(snap[..])
    ensures |r| == snap.Length && forall i | 0 <= i < snap.Length :: r[i] == snap[i].tags.Tags()
  {
    seq(snap.Length, i requires 0 <= i < snap.Length && Separate(snap[..]) reads snap, Arrays(snap[..]) =>
      assert snap[..][i] == snap[i]; snap[i].tags.Tags())
  }

  /** One operation beside a snapshot. */
  method PerformBeside(store: Store, op: Op, rules: Rules, saveOk: bool, ghost snap: array<Dev>)
    requires store.Valid() && Apart(store, snap)
    modifies store, store.arr, store.Footprint()
    ensures store.Valid() && (store.arr == old(store.arr) || fresh(store.arr))
    ensures fresh(store.Footprint() - old(store.Footprint()))
    ensures Apart(store, snap) && snap[..] == old(snap[..]) && TagsOf(snap) == old(TagsOf(snap))
  {
    Perform(store, op, rules, saveOk);
  }

  /** No run of operations changes a snapshot taken before it, neither its device list nor any device's tags. */
  method SnapshotsAreIsolated(store: Store, ops: seq<Op>, rules: Rules, saves: nat -> bool) returns (snap: array<Dev>)
    requires store.Valid()
    modifies store, store.arr, store.Footprint()
    ensures store.Valid() && snap.Length == |old(store.devices)| && Separate(snap[..])
    ensures forall i | 0 <= i < snap.Length ::
      snap[i].(tags := old(store.devices[i].tags)) == old(store.devices[i]) && TagsOf(snap)[i] == old(store.Tags(i))
  {
    snap := store.Snapshot();
    ghost var taken, tags := snap[..], TagsOf(snap);
    for c := 0 to |ops|
      invariant store.Valid() && (store.arr == old(store.arr) || fresh(store.arr))
      invariant fresh(store.Footprint() - old(store.Footprint()))
      invariant Apart(store, snap) && snap[..] == taken && TagsOf(snap) == tags
    {
      PerformBeside(store, ops[c], rules, saves(c), snap);
    }
    assert forall i | 0 <= i < snap.Length :: snap[i] == taken[i];
  }

  /** A device of a snapshot handed back to UpsertDevice shares its tags with the store, and an edit shows through. */
  method SnapshotHandedBackIsShared(store: Store, k: nat) returns (snap: array<Dev>)
    requires store.Valid() && k < |store.devices| && FindDevice(store.devices, store.devices[k].id) == Some(k)
    requires store.devices[k].id != "" && store.devices[k].endpoint != "" && store.Tags(k) != []
    modifies store, store.arr, store.Footprint()
    ensures k < snap.Length && snap[k].tags.Valid()
    ensures |snap[k].tags.Tags()| == |old(store.Tags(k))| && snap[k].tags.Tags() != old(store.Tags(k))
  {
    ghost var before := store.Tags(k);
    snap := store.Snapshot();
    var dev := snap[k];
    var err := store.UpsertDevice(dev, true);
    var flip := (t: Tag) => t.(simulate := !t.simulate);
    SameIdsSameIndex(old(store.devices), store.devices, dev.id);
    var n, err' := store.SetTagsBool(dev.id, [], flip, true);
    assert dev.tags.Tags()[0] == flip(before[0]);
  }
}
