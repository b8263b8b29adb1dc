/**
 Live values by key, a per-device index of keys, and the set of devices: what is written on a
 publish, what silently expires, and a read that serves from the index and prunes it.
 */
module SnapshotIndex {
  import opened Text

  // Keys: snapshot:metric:<group>:<edge>:<device>:<metric>

  function MakeKey(group: string, edge: string, device: string, metric: string): string {
    "snapshot:metric" + [':'] + (group + [':'] + (edge + [':'] + (device + [':'] + metric)))
  }

  predicate WellKeyed(key: string) {
    |Split(key, ':')| >= 6
  }

  function GroupOf(key: string): string
    requires WellKeyed(key)
  {
    Split(key, ':')[2]
  }

  function DeviceOf(key: string): string
    requires WellKeyed(key)
  {
    Split(key, ':')[4]
  }

  function MetricOf(key: string): string {
    Split(key, ':')[|Split(key, ':')| - 1]
  }

  /** A published key tells its group, its device and its metric's last part. */
  lemma KeyParts(group: string, edge: string, device: string, metric: string)
    requires ':' !in group && ':' !in edge && ':' !in device
    ensures var key := MakeKey(group, edge, device, metric);
            && WellKeyed(key) && GroupOf(key) == group && DeviceOf(key) == device
            && MetricOf(key) == Split(metric, ':')[|Split(metric, ':')| - 1]
            && (':' !in metric ==> MetricOf(key) == metric)
  {
    KeySplit(group, edge, device, metric);
    if ':' !in metric {
      CleanSplit(metric, ':');
    }
    hide Split, MakeKey, LastIndexOf;
    Behind(["snapshot", "metric", group, edge, device], Split(metric, ':'));
  }

  lemma Behind(front: seq<string>, rest: seq<string>)
    requires |front| == 5 && rest != []
    ensures var all := front + rest;
            |all| >= 6 && all[2] == front[2] && all[4] == front[4] && all[|all| - 1] == rest[|rest| - 1]
  {
  }

  lemma KeySplit(group: string, edge: string, device: string, metric: string)
    requires ':' !in group && ':' !in edge && ':' !in device
    ensures Split(MakeKey(group, edge, device, metric), ':') == ["snapshot", "metric", group, edge, device] + Split(metric, ':')
  {
    hide Split, LastIndexOf;
    var afterDevice := device + [':'] + metric;
    var afterEdge := edge + [':'] + afterDevice;
    var afterGroup := group + [':'] + afterEdge;
    SplitSum(device, ':', metric);
    SplitSum(edge, ':', afterDevice);
    SplitSum(group, ':', afterEdge);
    SplitSum("snapshot:metric", ':', afterGroup);
    PrefixParts();
    CleanSplit(group, ':');
    CleanSplit(edge, ':');
    CleanSplit(device, ':');
  }

  lemma PrefixParts()
    ensures Split("snapshot:metric", ':') == ["snapshot", "metric"]
  {
    hide Split, LastIndexOf;
    assert "snapshot:metric" == "snapshot" + [':'] + "metric";
    SplitSnoc("snapshot", ':', "metric");
    CleanSplit("snapshot", ':');
  }

  // What a read sees

  type Values = map<string, string>

  type Index = map<string, set<string>>

  function Members(index: Index, device: string): set<string> {
    if device in index then index[device] else {}
  }

  /** A key whose value has not expired. */
  predicate IsLive(live: Values, key: string) {
    key in live && live[key] != ""
  }

  predicate Visible(live: Values, allowed: string -> bool, key: string) {
    WellKeyed(key) && IsLive(live, key) && allowed(GroupOf(key))
  }

  /** metrics holds exactly the metrics of the visible keys among the given ones, each with one of their values. */
  ghost predicate Describes(live: Values, allowed: string -> bool, keys: set<string>, metrics: Values) {
    && (forall key :: key in keys && Visible(live, allowed, key) ==> MetricOf(key) in metrics)
    && (forall m :: m in metrics ==>
          exists key :: key in keys && Visible(live, allowed, key) && MetricOf(key) == m && live[key] == metrics[m])
  }

  ghost predicate AnyVisible(live: Values, allowed: string -> bool, keys: set<string>) {
    exists key :: key in keys && Visible(live, allowed, key)
  }

  predicate AnyLive(live: Values, keys: set<string>) {
    exists key :: key in keys && WellKeyed(key) && IsLive(live, key)
  }

  function Stale(live: Values, keys: set<string>): set<string> {
    set key | key in keys && WellKeyed(key) && !IsLive(live, key)
  }

  /** The inner loop: one device's keys, in any order. */
  method ReadDevice(live: Values, keys: set<string>, allowed: string -> bool, existing: Option<Values>)
    returns (metrics: Option<Values>, stale: set<string>, anyLive: bool)
    requires existing.Some? ==> Describes(live, allowed, keys, existing.value)
    ensures metrics.Some? <==> existing.Some? || AnyVisible(live, allowed, keys)
    ensures metrics.Some? ==> Describes(live, allowed, keys, metrics.value)
    ensures stale == Stale(live, keys)
    ensures anyLive <==> AnyLive(live, keys)
  {
    hide Split, WellKeyed, GroupOf, MetricOf;
    metrics, stale, anyLive := existing, {}, false;
    var todo := keys;
    while todo != {}
      invariant todo <= keys
      invariant stale == Stale(live, keys - todo)
      invariant anyLive <==> AnyLive(live, keys - todo)
      invariant metrics.Some? <==> existing.Some? || AnyVisible(live, allowed, keys - todo)
      invariant metrics.Some? ==> PartlyDescribes(live, allowed, keys, keys - todo, metrics.value)
      decreases todo
    {
      var key :| key in todo;
      OneMore(live, allowed, keys, todo, key, metrics);
      todo := todo - {key};
      if WellKeyed(key) {
        if !IsLive(live, key) {
          stale := stale + {key};
        } else {
          anyLive := true;
          if allowed(GroupOf(key)) {
            metrics := Some((if metrics.Some? then metrics.value else map[])[MetricOf(key) := live[key]]);
          }
        }
      }
    }
    assert keys - todo == keys;
  }

  /** As Describes, while only the keys of done are sure to be in. */
  ghost predicate PartlyDescribes(live: Values, allowed: string -> bool, keys: set<string>, done: set<string>, metrics: Values) {
    && (forall key :: key in done && Visible(live, allowed, key) ==> MetricOf(key) in metrics)
    && (forall m :: m in metrics ==>
          exists key :: key in keys && Visible(live, allowed, key) && MetricOf(key) == m && live[key] == metrics[m])
  }

  lemma OneMore(live: Values, allowed: string -> bool, keys: set<string>, todo: set<string>, key: string, metrics: Option<Values>)
    requires todo <= keys && key in todo
    requires metrics.Some? ==> PartlyDescribes(live, allowed, keys, keys - todo, metrics.value)
    requires metrics.None? ==> !AnyVisible(live, allowed, keys - todo)
    ensures var done := keys - (todo - {key});
            && Stale(live, done) == Stale(live, keys - todo) + (if WellKeyed(key) && !IsLive(live, key) then {key} else {})
            && (AnyLive(live, done) <==> AnyLive(live, keys - todo) || (WellKeyed(key) && IsLive(live, key)))
            && (AnyVisible(live, allowed, done) <==> AnyVisible(live, allowed, keys - todo) || Visible(live, allowed, key))
            && (if Visible(live, allowed, key)
                then PartlyDescribes(live, allowed, keys, done,
                       (if metrics.Some? then metrics.value else map[])[MetricOf(key) := live[key]])
                else metrics.Some? ==> PartlyDescribes(live, allowed, keys, done, metrics.value))
  {
    hide WellKeyed, GroupOf, MetricOf, IsLive;
    var done := keys - (todo - {key});
    assert forall k :: k in done <==> k in keys - todo || k == key;
  }

  // The store

  /** Every live key is in its device's index, and its device in the set of devices. */
  ghost predicate Cover(live: Values, index: Index, devices: set<string>) {
    forall key :: key in live ==>
      WellKeyed(key) && live[key] != "" && DeviceOf(key) in devices && key in Members(index, DeviceOf(key))
  }

  /** An index holds only keys of its device. */
  ghost predicate IndexSound(index: Index) {
    forall device, key :: key in Members(index, device) ==> WellKeyed(key) && DeviceOf(key) == device
  }

  /** Nothing is left to prune for the given devices. */
  ghost predicate Pruned(live: Values, index: Index, devices: set<string>, read: seq<string>) {
    forall device :: device in read ==>
      Stale(live, Members(index, device)) == {} && (!AnyLive(live, Members(index, device)) ==> device !in devices)
  }

  /** The live keys of a device, found without any index. */
  function KeysOf(live: Values, device: string): set<string> {
    set key | key in live && WellKeyed(key) && DeviceOf(key) == device
  }

  /** What scanning all live keys gives for a set of devices: no index involved. */
  ghost predicate IsScan(live: Values, allowed: string -> bool, read: seq<string>, result: map<string, Values>) {
    forall device ::
      var keys := KeysOf(live, device);
      && (device in result <==> device in read && AnyVisible(live, allowed, keys))
      && (device in result ==> Describes(live, allowed, keys, result[device]))
  }

  ghost predicate OneKeyPerMetric(live: Values) {
    forall j, k :: j in live && k in live && WellKeyed(j) && WellKeyed(k) && DeviceOf(j) == DeviceOf(k) && MetricOf(j) == MetricOf(k) ==> j == k
  }

  /** With one key per device and metric there is only one scan result. */
  lemma ScanUnique(live: Values, allowed: string -> bool, read: seq<string>, r1: map<string, Values>, r2: map<string, Values>)
    requires OneKeyPerMetric(live) && IsScan(live, allowed, read, r1) && IsScan(live, allowed, read, r2)
    ensures r1 == r2
  {
    hide WellKeyed, DeviceOf, MetricOf, GroupOf, Describes, AnyVisible;
    forall device | device in r1 ensures device in r2 && r1[device] == r2[device] {
      var keys := KeysOf(live, device);
      DescriptionUnique(live, allowed, keys, r1[device], r2[device]);
    }
    assert r1.Keys == r2.Keys;
  }

  lemma DescriptionUnique(live: Values, allowed: string -> bool, keys: set<string>, m1: Values, m2: Values)
    requires Describes(live, allowed, keys, m1) && Describes(live, allowed, keys, m2)
    requires forall j, k :: j in keys && k in keys && MetricOf(j) == MetricOf(k) ==> j == k
    ensures m1 == m2
  {
    hide WellKeyed, GroupOf, MetricOf, IsLive;
    assert m1.Keys == m2.Keys;
  }

  /** A scan over all devices leaves out no visible key. */
  lemma ScanOfAll(live: Values, index: Index, devices: set<string>, allowed: string -> bool, read: seq<string>,
                  result: map<string, Values>, key: string)
    requires Cover(live, index, devices) && IsScan(live, allowed, read, result)
    requires forall device :: device in devices ==> device in read
    requires key in live && allowed(GroupOf(key))
    ensures DeviceOf(key) in result && MetricOf(key) in result[DeviceOf(key)]
    ensures OneKeyPerMetric(live) ==> result[DeviceOf(key)][MetricOf(key)] == live[key]
  {
    hide GroupOf, DeviceOf, MetricOf, Split;
    var keys := KeysOf(live, DeviceOf(key));
    assert key in keys && Visible(live, allowed, key);
    hide WellKeyed;
  }

  /** A live key of a device, in a group that the caller may see. */
  ghost predicate Shown(live: Values, allowed: string -> bool, device: string, key: string) {
    key in live && WellKeyed(key) && DeviceOf(key) == device && allowed(GroupOf(key))
  }

  /** A scan shows exactly the devices, the metrics and the values of the keys the caller may see. */
  lemma ScanIff(live: Values, index: Index, devices: set<string>, allowed: string -> bool, read: seq<string>,
                result: map<string, Values>, device: string)
    requires Cover(live, index, devices) && IsScan(live, allowed, read, result)
    ensures device in result <==> device in read && exists key :: Shown(live, allowed, device, key)
    ensures device in result ==> forall m :: m in result[device] <==> exists key :: Shown(live, allowed, device, key) && MetricOf(key) == m
    ensures device in result ==> forall m :: m in result[device] ==>
              exists key :: Shown(live, allowed, device, key) && MetricOf(key) == m && live[key] == result[device][m]
  {
    var keys := KeysOf(live, device);
    forall key ensures key in keys && Visible(live, allowed, key) <==> Shown(live, allowed, device, key) {
    }
    hide WellKeyed, GroupOf, DeviceOf, MetricOf, Visible, Shown, Cover;
    assert device in result <==> device in read && AnyVisible(live, allowed, keys);
    if device in result {
      assert Describes(live, allowed, keys, result[device]);
    }
  }

  /** What pruning leaves of an index is its live keys; what it leaves of the devices are those with one, and the unread. */
  lemma PruneIs(live: Values, index: Index, devices: set<string>, members: set<string>, device: string)
    requires Cover(live, index, devices) && IndexSound(index) && members == Members(index, device)
    ensures forall key :: key in members - Stale(live, members) <==> key in members && key in live
    ensures AnyLive(live, members) <==> exists key :: key in members && key in live
  {
    hide DeviceOf, Members;
    assert forall key :: key in members ==> WellKeyed(key);
    hide WellKeyed;
  }

  lemma PruneLeaves(live: Values, index: Index, devices: set<string>, index': Index, devices': set<string>, read: seq<string>)
    requires Cover(live, index, devices) && IndexSound(index)
    requires forall d :: Members(index', d) == if d in read then Members(index, d) - Stale(live, Members(index, d))
                                               else Members(index, d)
    requires devices' == set d | d in devices && !(d in read && !AnyLive(live, Members(index, d)))
    ensures forall d, key :: key in Members(index', d) <==> key in Members(index, d) && (d in read ==> key in live)
    ensures forall d :: d in devices' <==> d in devices && (d in read ==> exists key :: key in Members(index, d) && key in live)
  {
    forall d
      ensures forall key :: key in Members(index, d) - Stale(live, Members(index, d)) <==> key in Members(index, d) && key in live
      ensures AnyLive(live, Members(index, d)) <==> exists key :: key in Members(index, d) && key in live
    {
      PruneIs(live, index, devices, Members(index, d), d);
    }
    hide Members, Stale, AnyLive, Cover, IndexSound;
  }

  lemma DeviceKeys(live: Values, index: Index, devices: set<string>, allowed: string -> bool, device: string, metrics: Values)
    requires Cover(live, index, devices) && IndexSound(index)
    ensures var keys, members := KeysOf(live, device), Members(index, device);
            && (AnyVisible(live, allowed, members) <==> AnyVisible(live, allowed, keys))
            && (Describes(live, allowed, members, metrics) <==> Describes(live, allowed, keys, metrics))
  {
    hide WellKeyed, DeviceOf, GroupOf, MetricOf, Members;
    var keys, members := KeysOf(live, device), Members(index, device);
    assert forall key :: Visible(live, allowed, key) ==> (key in members <==> key in keys);
  }

  class Store {
    var live: Values
    var index: Index
    var devices: set<string>

    ghost predicate Valid()
      reads this
    {
      Cover(live, index, devices) && IndexSound(index)
    }

    constructor ()
      ensures Valid() && live == map[] && devices == {}
    {
      live, index, devices := map[], map[], {};
    }

    /** The edge node's write: the value and both index entries go out together. */
    method Publish(group: string, edge: string, device: string, metric: string, value: string)
      requires Valid() && value != "" && ':' !in group && ':' !in edge && ':' !in device
      modifies this
      ensures Valid()
      ensures live == old(live)[MakeKey(group, edge, device, metric) := value]
      ensures devices == old(devices) + {device}
      ensures Members(index, device) == Members(old(index), device) + {MakeKey(group, edge, device, metric)}
      ensures forall d :: d != device ==> Members(index, d) == Members(old(index), d)
    {
      KeyParts(group, edge, device, metric);
      hide WellKeyed, DeviceOf, GroupOf, MetricOf, MakeKey, Cover, IndexSound;
      PublishKeeps(live, index, devices, device, MakeKey(group, edge, device, metric), value);
      var key := MakeKey(group, edge, device, metric);
      live := live[key := value];
      devices := devices + {device};
      index := index[device := Members(index, device) + {key}];
    }

    /** A value's time to live runs out; no index hears of it. */
    method Expire(key: string)
      requires Valid()
      modifies this`live
      ensures Valid() && live == old(live) - {key}
    {
      hide WellKeyed, DeviceOf;
      live := live - {key};
    }

    /** GET /snapshot for a list of devices, pruning as it goes. */
    method Read(read: seq<string>, allowed: string -> bool) returns (result: map<string, Values>)
      requires Valid()
      modifies this`index, this`devices
      ensures Valid()
      ensures IsScan(live, allowed, read, result)
      ensures forall d :: Members(index, d) == if d in read then Members(old(index), d) - Stale(live, Members(old(index), d))
                                               else Members(old(index), d)
      ensures devices == set d | d in old(devices) && !(d in read && !AnyLive(live, Members(old(index), d)))
      ensures forall d, key :: key in Members(index, d) <==> key in Members(old(index), d) && (d in read ==> key in live)
      ensures forall d :: d in devices <==> d in old(devices) && (d in read ==> exists key :: key in Members(old(index), d) && key in live)
      ensures Pruned(live, index, devices, read)
      ensures Pruned(live, old(index), old(devices), read) ==> devices == old(devices) && forall d :: Members(index, d) == Members(old(index), d)
    {
      hide WellKeyed, DeviceOf, GroupOf, MetricOf, Describes, AnyVisible, AnyLive, Stale, Cover, IndexSound, IsScan;
      var before := index;
      result := map[];
      var deadDevices: set<string> := {};
      for i := 0 to |read|
        invariant live == old(live) && devices == old(devices)
        invariant forall d :: d in result <==> d in read[..i] && AnyVisible(live, allowed, Members(before, d))
        invariant forall d :: d in result ==> Describes(live, allowed, Members(before, d), result[d])
        invariant forall d :: d in deadDevices <==> d in read[..i] && !AnyLive(live, Members(before, d))
        invariant forall d :: Members(index, d) == if d in read[..i] then Members(before, d) - Stale(live, Members(before, d))
                                                   else Members(before, d)
      {
        var device := read[i];
        assert forall d :: d in read[..i + 1] <==> d in read[..i] || d == device;
        var keys := Members(before, device);
        var metrics, stale, anyLive := ReadDevice(live, keys, allowed, if device in result then Some(result[device]) else None);
        if metrics.Some? {
          result := result[device := metrics.value];
        }
        index := index[device := Members(index, device) - stale];
        if !anyLive {
          deadDevices := deadDevices + {device};
        }
      }
      assert read[..|read|] == read;
      devices := devices - deadDevices;
      ReadIsScan(live, before, old(devices), allowed, read, result);
      PruneKeeps(live, before, old(devices), index, devices, read);
      PruneLeaves(live, before, old(devices), index, devices, read);
    }
  }

  lemma PublishKeeps(live: Values, index: Index, devices: set<string>, device: string, key: string, value: string)
    requires Cover(live, index, devices) && IndexSound(index)
    requires WellKeyed(key) && DeviceOf(key) == device && value != ""
    ensures var index' := index[device := Members(index, device) + {key}];
            Cover(live[key := value], index', devices + {device}) && IndexSound(index')
  {
    hide WellKeyed, DeviceOf;
    var index' := index[device := Members(index, device) + {key}];
    assert forall d :: Members(index, d) <= Members(index', d);
  }

  lemma ReadIsScan(live: Values, index: Index, devices: set<string>, allowed: string -> bool,
                   read: seq<string>, result: map<string, Values>)
    requires Cover(live, index, devices) && IndexSound(index)
    requires forall d :: d in result <==> d in read && AnyVisible(live, allowed, Members(index, d))
    requires forall d :: d in result ==> Describes(live, allowed, Members(index, d), result[d])
    ensures IsScan(live, allowed, read, result)
  {
    hide WellKeyed, DeviceOf, GroupOf, MetricOf, Describes, AnyVisible, Cover, IndexSound, Members;
    forall device
      ensures var keys := KeysOf(live, device);
              && (device in result <==> device in read && AnyVisible(live, allowed, keys))
              && (device in result ==> Describes(live, allowed, keys, result[device]))
    {
      DeviceKeys(live, index, devices, allowed, device, if device in result then result[device] else map[]);
    }
  }

  /** Pruning removes only dead entries: the cover stays, and a second pruning finds nothing. */
  lemma PruneKeeps(live: Values, index: Index, devices: set<string>, index': Index, devices': set<string>, read: seq<string>)
    requires Cover(live, index, devices) && IndexSound(index)
    requires forall d :: Members(index', d) == if d in read then Members(index, d) - Stale(live, Members(index, d))
                                               else Members(index, d)
    requires devices' == set d | d in devices && !(d in read && !AnyLive(live, Members(index, d)))
    ensures Cover(live, index', devices') && IndexSound(index') && Pruned(live, index', devices', read)
  {
    hide WellKeyed, DeviceOf, Members;
    forall d | d in read
      ensures Stale(live, Members(index', d)) == {}
      ensures AnyLive(live, Members(index', d)) <==> AnyLive(live, Members(index, d))
    {
      assert Members(index', d) == Members(index, d) - Stale(live, Members(index, d));
    }
    forall key | key in live
      ensures DeviceOf(key) in devices' && key in Members(index', DeviceOf(key))
    {
      assert IsLive(live, key);
    }
  }
}
