/** The runtime package's `BluetoothDevice` record and the registry policy
    the runtime manager applies to it: a rediscovered identifier refreshes
    the advertised fields of the record already held, a new identifier is
    appended, and a connection stores the best record available. */
module Devices {
  import opened Wrappers

  /** The value of a `BluetoothDevice` record: what the native layer sends
      (JSON-decoded) and what the fields of a stored record hold. */
  datatype DeviceInfo = DeviceInfo(
    deviceId: string,
    name: string,
    rssi: int,
    isConnectable: bool,
    serviceUUIDs: seq<string>,
    manufacturerData: string,
    localName: string,
    txPowerLevel: int)
  {
    /** The record after a rediscovery that advertised `adv`: the five
        advertised fields come from `adv`; identifier, name and
        connectable flag stay. */
    function RefreshedBy(adv: DeviceInfo): (r: DeviceInfo)
      ensures r.deviceId == deviceId && r.name == name && r.isConnectable == isConnectable
      ensures r.rssi == adv.rssi && r.serviceUUIDs == adv.serviceUUIDs
      ensures r.manufacturerData == adv.manufacturerData && r.localName == adv.localName
      ensures r.txPowerLevel == adv.txPowerLevel
    {
      this.(rssi := adv.rssi, serviceUUIDs := adv.serviceUUIDs,
            manufacturerData := adv.manufacturerData, localName := adv.localName,
            txPowerLevel := adv.txPowerLevel)
    }
  }

  const UnknownDeviceName: string := "Unknown Device"

  /** The minimal record stored for a connection to a device the manager
      knows nothing about: `new BluetoothDevice { deviceId = id,
      name = "Unknown Device", rssi = 0 }`, every other field at its
      default. */
  function Placeholder(id: string): (d: DeviceInfo)
    ensures d.deviceId == id && d.name == UnknownDeviceName && d.rssi == 0
  {
    DeviceInfo(id, UnknownDeviceName, 0, false, [], "", "", 0)
  }

  /** A stored `BluetoothDevice`: the manager updates its fields in place,
      and the same object may be held by both of its collections. The
      identifier is set when the object is built and never written after. */
  class Device {
    const deviceId: string
    var name: string
    var rssi: int
    var isConnectable: bool
    var serviceUUIDs: seq<string>
    var manufacturerData: string
    var localName: string
    var txPowerLevel: int

    /** The object the JSON decoder (or an initializer) builds from a record. */
    constructor (info: DeviceInfo)
      ensures Info() == info
    {
      deviceId, name, rssi, isConnectable := info.deviceId, info.name, info.rssi, info.isConnectable;
      serviceUUIDs, manufacturerData := info.serviceUUIDs, info.manufacturerData;
      localName, txPowerLevel := info.localName, info.txPowerLevel;
    }

    /** A rediscovery: the five advertised fields take the advertised
        values, in place. */
    method Refresh(adv: DeviceInfo)
      modifies this
      ensures Info() == old(Info()).RefreshedBy(adv)
    {
      rssi := adv.rssi;
      serviceUUIDs := adv.serviceUUIDs;
      manufacturerData := adv.manufacturerData;
      localName := adv.localName;
      txPowerLevel := adv.txPowerLevel;
    }

    /** The current value of the object's fields. */
    function Info(): DeviceInfo
      reads this
    {
      DeviceInfo(deviceId, name, rssi, isConnectable, serviceUUIDs, manufacturerData, localName, txPowerLevel)
    }
  }

  /** The values of a sequence of stored records. */
  function Infos(ds: seq<Device>): (r: seq<DeviceInfo>)
    reads ds
    ensures |r| == |ds|
    ensures forall i :: 0 <= i < |ds| ==> r[i] == ds[i].Info()
  {
    if |ds| == 0 then [] else [ds[0].Info()] + Infos(ds[1..])
  }

  /** No identifier is held twice. */
  ghost predicate UniqueIds(s: seq<DeviceInfo>) {
    forall i, j :: 0 <= i < j < |s| ==> s[i].deviceId != s[j].deviceId
  }

  /** The identifiers held. */
  ghost function Ids(s: seq<DeviceInfo>): set<string> {
    set i | 0 <= i < |s| :: s[i].deviceId
  }

  /** `List.Find(d => d.deviceId == id)` as a position: the first record
      with identifier `id`, or -1. */
  function IndexOfId(s: seq<DeviceInfo>, id: string): (r: int)
    ensures -1 <= r < |s|
    ensures r < 0 <==> id !in Ids(s)
    ensures 0 <= r ==> s[r].deviceId == id && forall j :: 0 <= j < r ==> s[j].deviceId != id
  {
    if |s| == 0 then -1
    else if s[0].deviceId == id then 0
    else
      var k := IndexOfId(s[1..], id);
      assert Ids(s) == {s[0].deviceId} + Ids(s[1..]) by {
        forall x | x in Ids(s) ensures x in {s[0].deviceId} + Ids(s[1..]) {
          var i :| 0 <= i < |s| && s[i].deviceId == x;
          if i > 0 { assert s[1..][i - 1].deviceId == x; }
        }
        forall x | x in Ids(s[1..]) ensures x in Ids(s) {
          var i :| 0 <= i < |s[1..]| && s[1..][i].deviceId == x;
          assert s[i + 1].deviceId == x;
        }
      }
      if k < 0 then -1 else k + 1
  }

  /** In a registry without duplicates the record with a held identifier
      is found where it is. */
  lemma IndexOfUniqueId(s: seq<DeviceInfo>, i: int)
    requires UniqueIds(s) && 0 <= i < |s|
    ensures IndexOfId(s, s[i].deviceId) == i
  {
  }

  /** `OnDeviceDiscoveredNative` on the registry's values: refresh the
      record with the same identifier, or append the new one. */
  function Upsert(s: seq<DeviceInfo>, adv: DeviceInfo): (r: seq<DeviceInfo>)
    ensures |r| == if adv.deviceId in Ids(s) then |s| else |s| + 1
    ensures forall j :: 0 <= j < |s| ==> r[j].deviceId == s[j].deviceId
    ensures adv.deviceId !in Ids(s) ==> r[|s|] == adv
  {
    var i := IndexOfId(s, adv.deviceId);
    if i < 0 then s + [adv] else s[i := s[i].RefreshedBy(adv)]
  }

  /** Discovery keeps at most one record per identifier, never loses or
      moves one, and grows by one exactly when the identifier is new (at
      the end, so the registry stays in first-discovery order); the record
      for the identifier then carries the advertised fields. */
  lemma UpsertProperties(s: seq<DeviceInfo>, adv: DeviceInfo)
    requires UniqueIds(s)
    ensures var r := Upsert(s, adv);
            UniqueIds(r) &&
            Ids(r) == Ids(s) + {adv.deviceId} &&
            |r| == if adv.deviceId in Ids(s) then |s| else |s| + 1
    ensures var r := Upsert(s, adv);
            |s| <= |r| && forall j :: 0 <= j < |s| ==> r[j].deviceId == s[j].deviceId
    ensures adv.deviceId !in Ids(s) ==> Upsert(s, adv) == s + [adv]
    ensures var r := Upsert(s, adv);
            var k := IndexOfId(r, adv.deviceId);
            0 <= k && r[k].rssi == adv.rssi && r[k].serviceUUIDs == adv.serviceUUIDs &&
            r[k].manufacturerData == adv.manufacturerData && r[k].localName == adv.localName &&
            r[k].txPowerLevel == adv.txPowerLevel
  {
    var r := Upsert(s, adv);
    var i := IndexOfId(s, adv.deviceId);
    if i < 0 {
      assert Ids(r) == Ids(s) + {adv.deviceId} by {
        assert r[|s|].deviceId == adv.deviceId;
        forall x | x in Ids(r) ensures x in Ids(s) + {adv.deviceId} {
          var j :| 0 <= j < |r| && r[j].deviceId == x;
          if j < |s| { assert s[j].deviceId == x; }
        }
        forall x | x in Ids(s) ensures x in Ids(r) {
          var j :| 0 <= j < |s| && s[j].deviceId == x;
          assert r[j].deviceId == x;
        }
      }
      IndexOfUniqueId(r, |s|);
    } else {
      assert Ids(r) == Ids(s) by {
        forall x | x in Ids(r) ensures x in Ids(s) {
          var j :| 0 <= j < |r| && r[j].deviceId == x;
          assert s[j].deviceId == x;
        }
        forall x | x in Ids(s) ensures x in Ids(r) {
          var j :| 0 <= j < |s| && s[j].deviceId == x;
          assert r[j].deviceId == x;
        }
      }
      IndexOfUniqueId(r, i);
    }
  }

  /** A sequence of discoveries applied in order. */
  function DiscoverAll(s: seq<DeviceInfo>, advs: seq<DeviceInfo>): seq<DeviceInfo>
    decreases |advs|
  {
    if |advs| == 0 then s else DiscoverAll(Upsert(s, advs[0]), advs[1..])
  }

  /** After any sequence of discoveries the registry holds each advertised
      identifier exactly once, and earlier records keep their positions. */
  lemma {:induction false} DiscoverAllProperties(s: seq<DeviceInfo>, advs: seq<DeviceInfo>)
    requires UniqueIds(s)
    ensures var r := DiscoverAll(s, advs);
            UniqueIds(r) &&
            Ids(r) == Ids(s) + (set i | 0 <= i < |advs| :: advs[i].deviceId) &&
            |s| <= |r| && forall j :: 0 <= j < |s| ==> r[j].deviceId == s[j].deviceId
    decreases |advs|
  {
    if |advs| > 0 {
      var s' := Upsert(s, advs[0]);
      UpsertProperties(s, advs[0]);
      DiscoverAllProperties(s', advs[1..]);
      var tail := set i | 0 <= i < |advs[1..]| :: advs[1..][i].deviceId;
      var all := set i | 0 <= i < |advs| :: advs[i].deviceId;
      assert all == {advs[0].deviceId} + tail by {
        forall x | x in all ensures x in {advs[0].deviceId} + tail {
          var i :| 0 <= i < |advs| && advs[i].deviceId == x;
          if i > 0 { assert advs[1..][i - 1].deviceId == x; }
        }
        forall x | x in tail ensures x in all {
          var i :| 0 <= i < |advs[1..]| && advs[1..][i].deviceId == x;
          assert advs[i + 1].deviceId == x;
        }
      }
    }
  }

  /** Two quick advertisements of one device, at -60 and then -40 dBm,
      leave one record, at -40 dBm. */
  lemma RediscoveryKeepsLatestSignal(adv: DeviceInfo)
    ensures var r := DiscoverAll([], [adv.(rssi := -60), adv.(rssi := -40)]);
            |r| == 1 && r[0].rssi == -40 && r[0].deviceId == adv.deviceId
  {
    var first := Upsert([], adv.(rssi := -60));
    assert first == [adv.(rssi := -60)];
    assert IndexOfId(first, adv.deviceId) == 0;
    assert DiscoverAll([], [adv.(rssi := -60), adv.(rssi := -40)]) == DiscoverAll(first, [adv.(rssi := -40)]);
  }

  /** Does this native entry (`null` when absent or unparseable) describe
      device `id`? */
  predicate IsNativeMatch(entry: Option<DeviceInfo>, id: string) {
    entry.Some? && entry.value.deviceId == id
  }

  /** The first native index whose record has identifier `id`, or -1. */
  function NativeMatchIndex(native: seq<Option<DeviceInfo>>, id: string): (r: int)
    ensures -1 <= r < |native|
    ensures r < 0 <==> forall j :: 0 <= j < |native| ==> !IsNativeMatch(native[j], id)
    ensures 0 <= r ==> IsNativeMatch(native[r], id) &&
                       forall j :: 0 <= j < r ==> !IsNativeMatch(native[j], id)
  {
    if |native| == 0 then -1
    else if IsNativeMatch(native[0], id) then 0
    else
      var k := NativeMatchIndex(native[1..], id);
      assert forall j :: 1 <= j < |native| ==> native[j] == native[1..][j - 1];
      if k < 0 then -1 else k + 1
  }

  /** The record `OnDeviceConnectedNative` stores for `id`: the discovered
      record, else the first native-index match, else a placeholder. */
  function ConnectedRecord(discovered: seq<DeviceInfo>, native: seq<Option<DeviceInfo>>,
                           id: string): (d: DeviceInfo)
    ensures d.deviceId == id
  {
    var i := IndexOfId(discovered, id);
    if 0 <= i then discovered[i]
    else
      var k := NativeMatchIndex(native, id);
      if 0 <= k then native[k].value else Placeholder(id)
  }

  /** Which record a connection stores: the discovered one when there is
      one; otherwise the record at the first native index that matches;
      otherwise "Unknown Device" at 0 dBm. */
  lemma ConnectedRecordChoice(discovered: seq<DeviceInfo>, native: seq<Option<DeviceInfo>>, id: string)
    requires UniqueIds(discovered)
    ensures forall i :: 0 <= i < |discovered| && discovered[i].deviceId == id ==>
              ConnectedRecord(discovered, native, id) == discovered[i]
    ensures id !in Ids(discovered) ==>
              forall k :: 0 <= k < |native| && IsNativeMatch(native[k], id) &&
                          (forall j :: 0 <= j < k ==> !IsNativeMatch(native[j], id)) ==>
                ConnectedRecord(discovered, native, id) == native[k].value
    ensures id !in Ids(discovered) && (forall k :: 0 <= k < |native| ==> !IsNativeMatch(native[k], id)) ==>
              ConnectedRecord(discovered, native, id) == Placeholder(id)
  {
    forall i | 0 <= i < |discovered| && discovered[i].deviceId == id
      ensures ConnectedRecord(discovered, native, id) == discovered[i]
    {
      IndexOfUniqueId(discovered, i);
    }
  }
}
