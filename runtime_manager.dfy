/** The runtime package's `BluetoothManager`: the session state kept on
    Unity's main thread between native callbacks. It holds the devices
    discovered in the current scan (a list, in first-discovery order, at
    most one record per identifier) and the connected devices (a
    dictionary keyed by identifier). Calls into the native plugin are
    recorded in `commands`; the C# events raised are recorded in `events`.
    Native queries are answered by parameters. */
module RuntimeManager {
  import opened Wrappers
  import opened DotNet
  import Native
  import opened Devices
  import Hex
  import WireFormat
  import opened CharacteristicValues
  import opened WriteResults

  /** The manager's C# events, in the order they are raised. */
  datatype Event =
    | BluetoothStateChanged(enabled: bool)
    | DeviceDiscovered(device: DeviceInfo)
    | DeviceConnected(deviceId: string)
    | DeviceDisconnected(deviceId: string)
    | ConnectionFailed(deviceId: string, error: string)
    | PermissionResult(granted: bool)
    | CharacteristicValueReceived(message: CharacteristicValueMessage)
    | CharacteristicWriteSucceeded(result: CharacteristicWriteResult)
    | CharacteristicWriteFailed(result: CharacteristicWriteResult)

  /** The disconnect requests for these identifiers, in order. */
  function DisconnectRequests(ids: seq<string>): (cs: seq<Native.Command>)
    ensures |cs| == |ids|
  {
    if |ids| == 0 then [] else DisconnectRequests(ids[..|ids| - 1]) + [Native.DisconnectDevice(ids[|ids| - 1])]
  }

  /** `cs` disconnects every key once, in some order: each request names a
      key, every key is named, and no request repeats. */
  ghost predicate DisconnectsEachOnce(cs: seq<Native.Command>, keys: set<string>) {
    |cs| == |keys| &&
    (forall i :: 0 <= i < |cs| ==> cs[i].DisconnectDevice? && cs[i].deviceId in keys) &&
    (forall id :: id in keys ==> Native.DisconnectDevice(id) in cs) &&
    (forall i, j :: 0 <= i < j < |cs| ==> cs[i] != cs[j])
  }

  /** The requests for a duplicate-free listing of the keys disconnect
      each key once. */
  lemma DisconnectRequestsCover(ids: seq<string>, keys: set<string>)
    requires |ids| == |keys|
    requires forall i :: 0 <= i < |ids| ==> ids[i] in keys
    requires forall id :: id in keys ==> id in ids
    requires forall i, j :: 0 <= i < j < |ids| ==> ids[i] != ids[j]
    ensures DisconnectsEachOnce(DisconnectRequests(ids), keys)
  {
    var cs := DisconnectRequests(ids);
    DisconnectRequestsAt(ids);
    forall id | id in keys
      ensures Native.DisconnectDevice(id) in cs
    {
      var i :| 0 <= i < |ids| && ids[i] == id;
      assert cs[i] == Native.DisconnectDevice(id);
    }
  }

  /** The request at position `i` disconnects `ids[i]`. */
  lemma {:induction false} DisconnectRequestsAt(ids: seq<string>)
    ensures forall i :: 0 <= i < |ids| ==> DisconnectRequests(ids)[i] == Native.DisconnectDevice(ids[i])
  {
    if |ids| > 0 {
      DisconnectRequestsAt(ids[..|ids| - 1]);
    }
  }

  class BluetoothManager {
    var discoveredDevices: seq<Device>
    var connectedDevices: map<string, Device>
    var isInitialized: bool
    var commands: seq<Native.Command>
    var events: seq<Event>

    /** At most one discovered record per identifier, and every connected
        record is filed under its own identifier. */
    ghost predicate Valid()
      reads this`discoveredDevices, this`connectedDevices
    {
      (forall i, j :: 0 <= i < j < |discoveredDevices| ==>
         discoveredDevices[i].deviceId != discoveredDevices[j].deviceId) &&
      (forall id :: id in connectedDevices ==> connectedDevices[id].deviceId == id)
    }

    /** The current values of the discovered records, in list order. */
    function Discovered(): seq<DeviceInfo>
      reads this`discoveredDevices, discoveredDevices
    {
      Infos(discoveredDevices)
    }

    constructor ()
      ensures Valid()
      ensures discoveredDevices == [] && connectedDevices == map[] && !isInitialized
      ensures commands == [] && events == []
    {
      discoveredDevices, connectedDevices, isInitialized := [], map[], false;
      commands, events := [], [];
    }

    /** `Initialize`: the first call starts the plugin and asks for
        permissions; later calls do nothing. */
    method Initialize()
      requires Valid()
      modifies this
      ensures Valid() && isInitialized
      ensures commands == if old(isInitialized) then old(commands)
                          else old(commands) + [Native.InitializeBluetooth, Native.RequestPermissions]
      ensures discoveredDevices == old(discoveredDevices) && connectedDevices == old(connectedDevices)
      ensures events == old(events)
    {
      if isInitialized {
        return;
      }
      commands := commands + [Native.InitializeBluetooth, Native.RequestPermissions];
      isInitialized := true;
    }

    /** `RequestPermissions`. */
    method RequestPermissions()
      modifies this`commands
      ensures commands == old(commands) + [Native.RequestPermissions]
    {
      commands := commands + [Native.RequestPermissions];
    }

    /** `StartScanning`: a new scan starts from an empty list; connections
        are a separate matter and stay as they are. */
    method StartScanning()
      requires Valid()
      modifies this`discoveredDevices, this`commands
      ensures Valid()
      ensures discoveredDevices == [] && Discovered() == []
      ensures commands == old(commands) + [Native.StartScanning]
    {
      discoveredDevices := [];
      commands := commands + [Native.StartScanning];
    }

    /** `StopScanning`. */
    method StopScanning()
      modifies this`commands
      ensures commands == old(commands) + [Native.StopScanning]
    {
      commands := commands + [Native.StopScanning];
    }

    /** `ConnectToDevice`: the connection itself is reported later by
        `OnDeviceConnectedNative`. */
    method ConnectToDevice(deviceId: string)
      modifies this`commands
      ensures commands == old(commands) + [Native.ConnectToDevice(deviceId)]
    {
      commands := commands + [Native.ConnectToDevice(deviceId)];
    }

    /** `DisconnectDevice`: the record stays until the plugin reports the
        disconnection. */
    method DisconnectDevice(deviceId: string)
      modifies this`commands
      ensures commands == old(commands) + [Native.DisconnectDevice(deviceId)]
    {
      commands := commands + [Native.DisconnectDevice(deviceId)];
    }

    /** `GetDiscoveredDevices`: a new list holding the same records in the
        same order. */
    method GetDiscoveredDevices() returns (copy: array<Device>)
      ensures fresh(copy)
      ensures copy[..] == discoveredDevices
    {
      var ds := discoveredDevices;
      copy := new Device[|ds|](i requires 0 <= i < |ds| => ds[i]);
    }

    /** `ClearDiscoveredDevices`: empties the list, leaves connections. */
    method ClearDiscoveredDevices()
      requires Valid()
      modifies this`discoveredDevices
      ensures Valid()
      ensures discoveredDevices == [] && Discovered() == []
    {
      discoveredDevices := [];
    }

    /** `GetDiscoveredDevice`: the discovered record with this identifier,
        or null. */
    method GetDiscoveredDevice(deviceId: string) returns (d: Device?)
      ensures d == null <==> deviceId !in Ids(Discovered())
      ensures d != null ==> d in discoveredDevices && d.deviceId == deviceId
      ensures d != null ==> d == discoveredDevices[IndexOfId(Discovered(), deviceId)]
    {
      var i := IndexOfId(Discovered(), deviceId);
      d := if 0 <= i then discoveredDevices[i] else null;
    }

    /** `IsDeviceDiscovered`. */
    method IsDeviceDiscovered(deviceId: string) returns (found: bool)
      ensures found <==> exists i :: 0 <= i < |discoveredDevices| && discoveredDevices[i].deviceId == deviceId
    {
      var i := IndexOfId(Discovered(), deviceId);
      found := 0 <= i;
      if !found {
        forall j | 0 <= j < |discoveredDevices|
          ensures discoveredDevices[j].deviceId != deviceId
        {
          assert Discovered()[j].deviceId == discoveredDevices[j].deviceId;
        }
      }
    }

    /** `new List<string>(connectedDevices.Keys)`: every connected
        identifier once, in the dictionary's (unspecified) order. */
    method ConnectedDeviceIds() returns (ids: seq<string>)
      ensures |ids| == |connectedDevices|
      ensures forall i :: 0 <= i < |ids| ==> ids[i] in connectedDevices
      ensures forall id :: id in connectedDevices ==> id in ids
      ensures forall i, j :: 0 <= i < j < |ids| ==> ids[i] != ids[j]
    {
      ids := [];
      var rest := connectedDevices.Keys;
      while rest != {}
        invariant rest <= connectedDevices.Keys
        invariant forall i :: 0 <= i < |ids| ==> ids[i] in connectedDevices && ids[i] !in rest
        invariant forall id :: id in connectedDevices ==> id in ids || id in rest
        invariant forall i, j :: 0 <= i < j < |ids| ==> ids[i] != ids[j]
        invariant |ids| + |rest| == |connectedDevices|
        decreases rest
      {
        var id :| id in rest;
        ids := ids + [id];
        rest := rest - {id};
      }
    }

    /** `GetConnectedDevices`: a new list of the connected records, each
        once. */
    method GetConnectedDevices() returns (copy: array<Device>)
      requires Valid()
      ensures fresh(copy)
      ensures copy.Length == |connectedDevices|
      ensures forall i :: 0 <= i < copy.Length ==> copy[i] in connectedDevices.Values
      ensures forall id :: id in connectedDevices ==> connectedDevices[id] in copy[..]
    {
      var ids := ConnectedDeviceIds();
      var cs := connectedDevices;
      copy := new Device[|ids|](i requires 0 <= i < |ids| => cs[ids[i]]);
      forall id | id in connectedDevices
        ensures connectedDevices[id] in copy[..]
      {
        var i :| 0 <= i < |ids| && ids[i] == id;
        assert copy[i] == connectedDevices[id];
      }
    }

    /** `GetConnectedDevice`: the record filed under this identifier, or
        null. */
    method GetConnectedDevice(deviceId: string) returns (d: Device?)
      requires Valid()
      ensures d != null <==> deviceId in connectedDevices
      ensures d != null ==> d == connectedDevices[deviceId] && d.deviceId == deviceId
    {
      d := if deviceId in connectedDevices then connectedDevices[deviceId] else null;
    }

    /** `GetConnectedDeviceCount`. */
    method GetConnectedDeviceCount() returns (n: int)
      ensures n == |connectedDevices.Keys|
    {
      n := |connectedDevices|;
    }

    /** `GetDiscoveredDeviceByIndex` as the editor builds it: the record at
        a valid position of the list, null for any other index. */
    method GetDiscoveredDeviceByIndex(index: int) returns (d: Device?)
      ensures 0 <= index < |discoveredDevices| ==> d == discoveredDevices[index]
      ensures index < 0 || |discoveredDevices| <= index ==> d == null
    {
      if 0 <= index < |discoveredDevices| {
        return discoveredDevices[index];
      }
      return null;
    }

    /** `WriteCharacteristic(deviceId, characteristicUUID, byte[] data)`:
        nothing is sent when the identifier, the UUID or the payload is
        null or empty; otherwise the payload goes out as lower-case
        hexadecimal pairs without separators. */
    method WriteCharacteristic(deviceId: NullableString, characteristicUUID: NullableString,
                               data: Option<seq<byte>>)
      modifies this`commands
      ensures IsNullOrEmpty(deviceId) || IsNullOrEmpty(characteristicUUID) || data.None? || |data.value| == 0 ==>
                commands == old(commands)
      ensures !IsNullOrEmpty(deviceId) && !IsNullOrEmpty(characteristicUUID) && data.Some? && |data.value| > 0 ==>
                commands == old(commands) +
                  [Native.WriteCharacteristic(deviceId.value, characteristicUUID.value, Hex.Encode(data.value))]
    {
      if IsNullOrEmpty(deviceId) {
        return;
      }
      if IsNullOrEmpty(characteristicUUID) {
        return;
      }
      if data.None? || |data.value| == 0 {
        return;
      }
      var hexData := ToLower(RemoveAll(BitConverterToString(data.value), '-'));
      Hex.BitConverterPipelineIsEncode(data.value);
      commands := commands + [Native.WriteCharacteristic(deviceId.value, characteristicUUID.value, hexData)];
    }

    /** `WriteCharacteristic(deviceId, characteristicUUID, string hexData)`:
        the same checks, and the text is forwarded as given (it is not
        checked to be hexadecimal). */
    method WriteCharacteristicHex(deviceId: NullableString, characteristicUUID: NullableString,
                                  hexData: NullableString)
      modifies this`commands
      ensures IsNullOrEmpty(deviceId) || IsNullOrEmpty(characteristicUUID) || IsNullOrEmpty(hexData) ==>
                commands == old(commands)
      ensures !IsNullOrEmpty(deviceId) && !IsNullOrEmpty(characteristicUUID) && !IsNullOrEmpty(hexData) ==>
                commands == old(commands) +
                  [Native.WriteCharacteristic(deviceId.value, characteristicUUID.value, hexData.value)]
    {
      if IsNullOrEmpty(deviceId) || IsNullOrEmpty(characteristicUUID) || IsNullOrEmpty(hexData) {
        return;
      }
      commands := commands + [Native.WriteCharacteristic(deviceId.value, characteristicUUID.value, hexData.value)];
    }

    /** `SubscribeToCharacteristic`: refused for a null or empty
        identifier or UUID. */
    method SubscribeToCharacteristic(deviceId: NullableString, characteristicUUID: NullableString)
      modifies this`commands
      ensures IsNullOrEmpty(deviceId) || IsNullOrEmpty(characteristicUUID) ==> commands == old(commands)
      ensures !IsNullOrEmpty(deviceId) && !IsNullOrEmpty(characteristicUUID) ==>
                commands == old(commands) +
                  [Native.SubscribeToCharacteristic(deviceId.value, characteristicUUID.value)]
    {
      if IsNullOrEmpty(deviceId) || IsNullOrEmpty(characteristicUUID) {
        return;
      }
      commands := commands + [Native.SubscribeToCharacteristic(deviceId.value, characteristicUUID.value)];
    }

    /** `UnsubscribeFromCharacteristic`: the same checks. */
    method UnsubscribeFromCharacteristic(deviceId: NullableString, characteristicUUID: NullableString)
      modifies this`commands
      ensures IsNullOrEmpty(deviceId) || IsNullOrEmpty(characteristicUUID) ==> commands == old(commands)
      ensures !IsNullOrEmpty(deviceId) && !IsNullOrEmpty(characteristicUUID) ==>
                commands == old(commands) +
                  [Native.UnsubscribeFromCharacteristic(deviceId.value, characteristicUUID.value)]
    {
      if IsNullOrEmpty(deviceId) || IsNullOrEmpty(characteristicUUID) {
        return;
      }
      commands := commands + [Native.UnsubscribeFromCharacteristic(deviceId.value, characteristicUUID.value)];
    }

    /** `DisconnectAllDevices`: one disconnect request per connected
        identifier, taken from a copy of the keys; the dictionary itself
        changes only when the plugin reports each disconnection. */
    method DisconnectAllDevices()
      modifies this`commands
      ensures |old(commands)| <= |commands| && commands[..|old(commands)|] == old(commands)
      ensures DisconnectsEachOnce(commands[|old(commands)|..], connectedDevices.Keys)
    {
      var deviceIds := ConnectedDeviceIds();
      for k := 0 to |deviceIds|
        invariant commands == old(commands) + DisconnectRequests(deviceIds[..k])
      {
        assert deviceIds[..k + 1] == deviceIds[..k] + [deviceIds[k]];
        DisconnectDevice(deviceIds[k]);
      }
      assert deviceIds[..|deviceIds|] == deviceIds;
      assert commands[|old(commands)|..] == DisconnectRequests(deviceIds);
      DisconnectRequestsCover(deviceIds, connectedDevices.Keys);
    }

    /** `OnBluetoothStateChangedNative`: "1" means enabled. */
    method OnBluetoothStateChangedNative(enabled: string)
      modifies this`events
      ensures events == old(events) + [BluetoothStateChanged(WireFormat.ParseFlag(enabled))]
    {
      var isEnabled := WireFormat.ParseFlag(enabled);
      events := events + [BluetoothStateChanged(isEnabled)];
    }

    /** A rediscovery of the record at position `i`: its advertised fields
        are refreshed in place; no other record changes. */
    method RefreshDiscovered(i: int, adv: DeviceInfo)
      requires Valid() && 0 <= i < |discoveredDevices|
      modifies discoveredDevices[i]
      ensures Valid()
      ensures Discovered() == old(Discovered())[i := old(Discovered())[i].RefreshedBy(adv)]
    {
      var existing := discoveredDevices[i];
      ghost var before := Discovered();
      forall j | 0 <= j < |discoveredDevices| && j != i
        ensures discoveredDevices[j] != existing
      {
        assert before[j].deviceId != before[i].deviceId;
      }
      existing.Refresh(adv);
      forall j | 0 <= j < |before|
        ensures Discovered()[j] == before[i := before[i].RefreshedBy(adv)][j]
      {
        if j != i {
          assert discoveredDevices[j] != existing;
        }
      }
    }

    /** A first discovery: a new object for the record goes at the end. */
    method AppendDiscovered(adv: DeviceInfo)
      requires Valid()
      requires forall j :: 0 <= j < |discoveredDevices| ==> discoveredDevices[j].deviceId != adv.deviceId
      modifies this`discoveredDevices
      ensures Valid()
      ensures |discoveredDevices| == |old(discoveredDevices)| + 1
      ensures discoveredDevices[..|old(discoveredDevices)|] == old(discoveredDevices)
      ensures fresh(discoveredDevices[|old(discoveredDevices)|])
      ensures Discovered() == old(Discovered()) + [adv]
    {
      ghost var before := Discovered();
      var added := new Device(adv);
      discoveredDevices := discoveredDevices + [added];
      forall j | 0 <= j < |before|
        ensures Discovered()[j] == before[j]
      {
        assert discoveredDevices[j] == old(discoveredDevices[j]);
      }
    }

    /** `OnDeviceDiscoveredNative`, given the decoded record (`None` when
        the JSON could not be decoded: the error is logged and nothing
        changes). A known identifier has its advertised fields refreshed in
        place, keeping its object, identity and position; a new identifier
        is appended as a new object. The event carries the decoded record. */
    method OnDeviceDiscoveredNative(parsed: Option<DeviceInfo>)
      requires Valid()
      modifies this`discoveredDevices, this`events, discoveredDevices
      ensures Valid()
      ensures parsed.None? ==>
                discoveredDevices == old(discoveredDevices) && Discovered() == old(Discovered()) &&
                events == old(events)
      ensures parsed.Some? ==>
                Discovered() == Upsert(old(Discovered()), parsed.value) &&
                events == old(events) + [DeviceDiscovered(parsed.value)]
      ensures parsed.Some? && parsed.value.deviceId in Ids(old(Discovered())) ==>
                discoveredDevices == old(discoveredDevices)
      ensures parsed.Some? && parsed.value.deviceId !in Ids(old(Discovered())) ==>
                |discoveredDevices| == |old(discoveredDevices)| + 1 &&
                discoveredDevices[..|old(discoveredDevices)|] == old(discoveredDevices) &&
                fresh(discoveredDevices[|old(discoveredDevices)|])
    {
      if parsed.None? {
        return;
      }
      var device := parsed.value;
      Discover(device);
      ghost var after := Discovered();
      events := events + [DeviceDiscovered(device)];
      assert Discovered() == after;
    }

    /** The registry update of a discovery. */
    method Discover(device: DeviceInfo)
      requires Valid()
      modifies this`discoveredDevices, discoveredDevices
      ensures Valid()
      ensures Discovered() == Upsert(old(Discovered()), device)
      ensures device.deviceId in Ids(old(Discovered())) ==> discoveredDevices == old(discoveredDevices)
      ensures device.deviceId !in Ids(old(Discovered())) ==>
                |discoveredDevices| == |old(discoveredDevices)| + 1 &&
                discoveredDevices[..|old(discoveredDevices)|] == old(discoveredDevices) &&
                fresh(discoveredDevices[|old(discoveredDevices)|])
    {
      var i := IndexOfId(Discovered(), device.deviceId);
      if 0 <= i {
        RefreshDiscovered(i, device);
      } else {
        forall j | 0 <= j < |discoveredDevices|
          ensures discoveredDevices[j].deviceId != device.deviceId
        {
          assert Discovered()[j].deviceId in Ids(Discovered());
        }
        AppendDiscovered(device);
      }
    }

    /** `OnDeviceConnectedNative`, given the plugin's discovered-device
        table (`native[i]` is the decoded `_getDiscoveredDeviceInfo(i)`,
        `None` when empty or undecodable). The record stored is the
        discovered object itself when there is one, else a new object for
        the first native match, else a new "Unknown Device" placeholder;
        a reconnection replaces the entry without changing the count. */
    method OnDeviceConnectedNative(deviceId: string, native: seq<Option<DeviceInfo>>)
      requires Valid()
      modifies this`connectedDevices, this`events
      ensures Valid()
      ensures deviceId in connectedDevices
      ensures connectedDevices == old(connectedDevices)[deviceId := connectedDevices[deviceId]]
      ensures |connectedDevices| == |old(connectedDevices)| + if deviceId in old(connectedDevices) then 0 else 1
      ensures connectedDevices[deviceId].Info() == ConnectedRecord(old(Discovered()), native, deviceId)
      ensures deviceId in Ids(old(Discovered())) ==>
                connectedDevices[deviceId] == discoveredDevices[IndexOfId(old(Discovered()), deviceId)]
      ensures deviceId !in Ids(old(Discovered())) ==> fresh(connectedDevices[deviceId])
      ensures events == old(events) + [DeviceConnected(deviceId)]
    {
      var i := IndexOfId(Discovered(), deviceId);
      if 0 <= i {
        assert discoveredDevices[i].Info() == old(Discovered())[i];
        StoreConnection(deviceId, discoveredDevices[i]);
      } else {
        var found := FindNativeDevice(deviceId, native);
        if found == null {
          found := new Device(Placeholder(deviceId));
        }
        StoreConnection(deviceId, found);
      }
      events := events + [DeviceConnected(deviceId)];
    }

    /** `connectedDevices[deviceId] = device`: a new key adds one entry, a
        known key has its record replaced. */
    method StoreConnection(deviceId: string, device: Device)
      requires Valid() && device.deviceId == deviceId
      modifies this`connectedDevices
      ensures Valid()
      ensures connectedDevices == old(connectedDevices)[deviceId := device]
      ensures |connectedDevices| == |old(connectedDevices)| + if deviceId in old(connectedDevices) then 0 else 1
    {
      connectedDevices := connectedDevices[deviceId := device];
      if deviceId in old(connectedDevices) {
        assert connectedDevices.Keys == old(connectedDevices).Keys;
      } else {
        assert connectedDevices.Keys == old(connectedDevices).Keys + {deviceId};
      }
    }

    /** The search of `OnDeviceConnectedNative` through the plugin's
        discovered-device table: a new object for the first entry that
        describes `deviceId`, or null when none does. */
    static method FindNativeDevice(deviceId: string, native: seq<Option<DeviceInfo>>) returns (d: Device?)
      ensures NativeMatchIndex(native, deviceId) < 0 ==> d == null
      ensures 0 <= NativeMatchIndex(native, deviceId) ==>
                d != null && fresh(d) && d.Info() == native[NativeMatchIndex(native, deviceId)].value
    {
      for k := 0 to |native|
        invariant forall j :: 0 <= j < k ==> !IsNativeMatch(native[j], deviceId)
      {
        if native[k].Some? && native[k].value.deviceId == deviceId {
          d := new Device(native[k].value);
          return;
        }
      }
      d := null;
    }

    /** `OnDeviceDisconnectedNative`: only this identifier's entry goes (an
        unknown identifier leaves the dictionary as it is); the event is
        raised either way. */
    method OnDeviceDisconnectedNative(deviceId: string)
      requires Valid()
      modifies this`connectedDevices, this`events
      ensures Valid()
      ensures connectedDevices == old(connectedDevices) - {deviceId}
      ensures |connectedDevices| == |old(connectedDevices)| - if deviceId in old(connectedDevices) then 1 else 0
      ensures events == old(events) + [DeviceDisconnected(deviceId)]
    {
      if deviceId in connectedDevices {
        connectedDevices := connectedDevices - {deviceId};
        assert connectedDevices.Keys + {deviceId} == old(connectedDevices).Keys;
      }
      events := events + [DeviceDisconnected(deviceId)];
    }

    /** `OnConnectionFailedNative`: "deviceId|message". */
    method OnConnectionFailedNative(errorInfo: string)
      modifies this`events
      ensures events == old(events) + [ConnectionFailed(WireFormat.ParseConnectionFailed(errorInfo).0,
                                                        WireFormat.ParseConnectionFailed(errorInfo).1)]
    {
      var (deviceId, error) := WireFormat.ParseConnectionFailed(errorInfo);
      events := events + [ConnectionFailed(deviceId, error)];
    }

    /** `OnPermissionResultNative`: "1" means granted. */
    method OnPermissionResultNative(granted: string)
      modifies this`events
      ensures events == old(events) + [PermissionResult(WireFormat.ParseFlag(granted))]
    {
      var isGranted := WireFormat.ParseFlag(granted);
      events := events + [PermissionResult(isGranted)];
    }

    /** `OnCharacteristicValueReceivedNative`: the decoded message is
        passed on; an undecodable one is only logged. */
    method OnCharacteristicValueReceivedNative(parsed: Option<CharacteristicValueMessage>)
      modifies this`events
      ensures events == old(events) + if parsed.Some? then [CharacteristicValueReceived(parsed.value)] else []
    {
      if parsed.Some? {
        events := events + [CharacteristicValueReceived(parsed.value)];
      }
    }

    /** `OnCharacteristicWriteSuccessNative`. */
    method OnCharacteristicWriteSuccessNative(parsed: Option<CharacteristicWriteResult>)
      modifies this`events
      ensures events == old(events) + if parsed.Some? then [CharacteristicWriteSucceeded(parsed.value)] else []
    {
      if parsed.Some? {
        events := events + [CharacteristicWriteSucceeded(parsed.value)];
      }
    }

    /** `OnCharacteristicWriteErrorNative`. */
    method OnCharacteristicWriteErrorNative(parsed: Option<CharacteristicWriteResult>)
      modifies this`events
      ensures events == old(events) + if parsed.Some? then [CharacteristicWriteFailed(parsed.value)] else []
    {
      if parsed.Some? {
        events := events + [CharacteristicWriteFailed(parsed.value)];
      }
    }
  }

  /** Two quick advertisements of one device, at -60 and then -40 dBm,
      leave one discovered record, at -40 dBm, and raise two events. */
  method RediscoveryKeepsOneRecord(adv: DeviceInfo) returns (m: BluetoothManager)
    ensures fresh(m) && m.Valid()
    ensures |m.discoveredDevices| == 1 && m.Discovered()[0].rssi == -40
    ensures |m.events| == 2
  {
    var first, second := adv.(rssi := -60), adv.(rssi := -40);
    m := new BluetoothManager();
    m.OnDeviceDiscoveredNative(Some(first));
    m.OnDeviceDiscoveredNative(Some(second));
    RediscoveryKeepsLatestSignal(adv);
    assert DiscoverAll([], [first, second]) == DiscoverAll(Upsert([], first), [second]);
    assert DiscoverAll(Upsert([], first), [second]) == Upsert(Upsert([], first), second);
  }
}
