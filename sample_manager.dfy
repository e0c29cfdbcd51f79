/** The older sample package's `BluetoothManager` and its
    `BluetoothDevice`: the same plugin calls and string callbacks as the
    runtime manager, but discovery only appends (no deduplication) and
    nothing tracks connections. Calls into the plugin are recorded in
    `commands`, the C# events raised in `events`. */
module SampleManager {
  import opened Wrappers
  import opened DotNet
  import Native
  import WireFormat

  /** The sample `BluetoothDevice` record (the sample never changes a
      stored record, so it is a value here). */
  datatype SampleDevice = SampleDevice(
    deviceId: NullableString,
    name: NullableString,
    rssi: int,
    isConnectable: bool,
    serviceUUIDs: seq<string>)

  /** The parameterless constructor: only the service list is set, empty. */
  function NewSampleDevice(): (d: SampleDevice)
    ensures d.deviceId.None? && d.name.None? && d.rssi == 0 && !d.isConnectable
    ensures d.serviceUUIDs == []
  {
    SampleDevice(None, None, 0, false, [])
  }

  /** The four-argument constructor (`rssi` defaults to 0 and
      `isConnectable` to true); no services. */
  function NewSampleDeviceWith(deviceId: NullableString, name: NullableString,
                               rssi: int := 0, isConnectable: bool := true): (d: SampleDevice)
    ensures d.deviceId == deviceId && d.name == name && d.rssi == rssi
    ensures d.isConnectable == isConnectable && d.serviceUUIDs == []
  {
    SampleDevice(deviceId, name, rssi, isConnectable, [])
  }

  /** The sample manager's C# events, in the order they are raised. */
  datatype Event =
    | BluetoothStateChanged(enabled: bool)
    | DeviceDiscovered(device: SampleDevice)
    | DeviceConnected(deviceId: string)
    | DeviceDisconnected(deviceId: string)
    | ConnectionFailed(deviceId: string, error: string)
    | PermissionResult(granted: bool)

  class BluetoothManager {
    var discoveredDevices: seq<SampleDevice>
    var isInitialized: bool
    var commands: seq<Native.Command>
    var events: seq<Event>

    constructor ()
      ensures discoveredDevices == [] && !isInitialized && commands == [] && events == []
    {
      discoveredDevices, isInitialized, commands, events := [], false, [], [];
    }

    /** `Initialize`: only the first call starts the plugin (no permission
        request here, unlike the runtime manager); later calls do nothing. */
    method Initialize()
      modifies this`isInitialized, this`commands
      ensures isInitialized
      ensures commands == if old(isInitialized) then old(commands)
                          else old(commands) + [Native.InitializeBluetooth]
    {
      if isInitialized {
        return;
      }
      commands := commands + [Native.InitializeBluetooth];
      isInitialized := true;
    }

    /** `RequestPermissions`. */
    method RequestPermissions()
      modifies this`commands
      ensures commands == old(commands) + [Native.RequestPermissions]
    {
      commands := commands + [Native.RequestPermissions];
    }

    /** `StartScanning`: empties the list, then starts the scan. */
    method StartScanning()
      modifies this`discoveredDevices, this`commands
      ensures discoveredDevices == []
      ensures commands == old(commands) + [Native.StartScanning]
    {
      discoveredDevices := [];
      commands := commands + [Native.StartScanning];
    }

    /** `StopScanning`: the list is kept. */
    method StopScanning()
      modifies this`commands
      ensures commands == old(commands) + [Native.StopScanning]
    {
      commands := commands + [Native.StopScanning];
    }

    /** `ConnectToDevice`. */
    method ConnectToDevice(deviceId: string)
      modifies this`commands
      ensures commands == old(commands) + [Native.ConnectToDevice(deviceId)]
    {
      commands := commands + [Native.ConnectToDevice(deviceId)];
    }

    /** `DisconnectDevice`. */
    method DisconnectDevice(deviceId: string)
      modifies this`commands
      ensures commands == old(commands) + [Native.DisconnectDevice(deviceId)]
    {
      commands := commands + [Native.DisconnectDevice(deviceId)];
    }

    /** `GetDiscoveredDevices`: a new list with the same records in the
        same order; being new, writing to it cannot reach the manager. */
    method GetDiscoveredDevices() returns (copy: array<SampleDevice>)
      ensures fresh(copy)
      ensures copy[..] == discoveredDevices
    {
      var ds := discoveredDevices;
      copy := new SampleDevice[|ds|](i requires 0 <= i < |ds| => ds[i]);
    }

    /** `OnBluetoothStateChangedNative`: "1" means enabled. */
    method OnBluetoothStateChangedNative(enabled: string)
      modifies this`events
      ensures events == old(events) + [BluetoothStateChanged(WireFormat.ParseFlag(enabled))]
    {
      var isEnabled := WireFormat.ParseFlag(enabled);
      events := events + [BluetoothStateChanged(isEnabled)];
    }

    /** `OnDeviceDiscoveredNative`, given the decoded record (`None` when
        the JSON could not be decoded: the error is logged and nothing
        changes). Every decoded record is appended, a known identifier
        included. */
    method OnDeviceDiscoveredNative(parsed: Option<SampleDevice>)
      modifies this`discoveredDevices, this`events
      ensures parsed.None? ==> discoveredDevices == old(discoveredDevices) && events == old(events)
      ensures parsed.Some? ==>
                discoveredDevices == old(discoveredDevices) + [parsed.value] &&
                |discoveredDevices| == |old(discoveredDevices)| + 1 &&
                events == old(events) + [DeviceDiscovered(parsed.value)]
    {
      if parsed.None? {
        return;
      }
      discoveredDevices := discoveredDevices + [parsed.value];
      events := events + [DeviceDiscovered(parsed.value)];
    }

    /** `OnDeviceConnectedNative`: only the event; no state is kept. */
    method OnDeviceConnectedNative(deviceId: string)
      modifies this`events
      ensures events == old(events) + [DeviceConnected(deviceId)]
    {
      events := events + [DeviceConnected(deviceId)];
    }

    /** `OnDeviceDisconnectedNative`: only the event. */
    method OnDeviceDisconnectedNative(deviceId: string)
      modifies this`events
      ensures events == old(events) + [DeviceDisconnected(deviceId)]
    {
      events := events + [DeviceDisconnected(deviceId)];
    }

    /** `OnConnectionFailedNative`: the same "deviceId|message" parse as
        the runtime manager. */
    method OnConnectionFailedNative(errorInfo: string)
      modifies this`events
      ensures events == old(events) + [ConnectionFailed(WireFormat.ParseConnectionFailed(errorInfo).0,
                                                        WireFormat.ParseConnectionFailed(errorInfo).1)]
    {
      var (deviceId, error) := WireFormat.ParseConnectionFailed(errorInfo);
      events := events + [ConnectionFailed(deviceId, error)];
    }

    /** `OnPermissionResultNative`: "1" means granted. */
    method OnPermissionResultNative(granted: string)
      modifies this`events
      ensures events == old(events) + [PermissionResult(WireFormat.ParseFlag(granted))]
    {
      var isGranted := WireFormat.ParseFlag(granted);
      events := events + [PermissionResult(isGranted)];
    }
  }

  /** Unlike the runtime manager, two advertisements of one device leave
      two entries with the same identifier. */
  method RediscoveryDuplicates(device: SampleDevice) returns (m: BluetoothManager)
    ensures fresh(m)
    ensures |m.discoveredDevices| == 2
    ensures m.discoveredDevices[0].deviceId == m.discoveredDevices[1].deviceId == device.deviceId
  {
    m := new BluetoothManager();
    m.StartScanning();
    m.OnDeviceDiscoveredNative(Some(device));
    m.OnDeviceDiscoveredNative(Some(device));
  }

  /** A second `Initialize` issues nothing and changes nothing. */
  method InitializeTwice() returns (m: BluetoothManager)
    ensures fresh(m) && m.isInitialized
    ensures m.commands == [Native.InitializeBluetooth]
  {
    m := new BluetoothManager();
    m.Initialize();
    m.Initialize();
  }
}
