# UnityBLE2IOS session core, in Dafny

UnityBLE2IOS is a Unity package that drives a native iOS CoreBluetooth plugin
from C#. Its core is the `BluetoothManager` MonoBehaviour, which does three things:

- It forwards commands to the plugin: initialize, request permissions,
  scan, connect, disconnect, write, subscribe and unsubscribe.
- It receives the plugin's callbacks as strings: flags,
  "deviceId|message" records and JSON records.
- It keeps the session state between callbacks: the devices discovered in
  the current scan and the devices currently connected.

Three value classes travel through it: `CharacteristicValueMessage`,
`CharacteristicWriteResult` and `BluetoothCharacteristic`.

This project models both managers that the repository ships:

- The runtime package's manager, `RuntimeManager.BluetoothManager`. It is a
  class with the same fields. The discovered list is a `seq<Device>` of
  `Device` objects. The connected dictionary is a `map<string, Device>` that
  may hold the very same objects. Calls into the plugin are appended to
  `commands`. The C# events it raises are appended to `events`. The model
  follows the iOS device build (`UNITY_IOS && !UNITY_EDITOR`).
- The older sample package's manager, `SampleManager.BluetoothManager`.
  Discovery there only appends, and nothing tracks connections.

Around the managers the project models:

- the hexadecimal payload format of writes and value notifications
  (`Hex`, `CharacteristicValues`);
- the plain-text callback payloads (`WireFormat`);
- the registry policy of discovery and connection on values (`Devices`):
  at most one record per identifier, refresh in place, append when new,
  and the choice of the connected record;
- the write-result and characteristic records (`WriteResults`,
  `Characteristics`);
- the .NET library calls the code relies on (`DotNet`): `string.Split`,
  `BitConverter.ToString`, `Replace`, `ToLower` and `Convert.ToByte(_, 16)`.

The manager's state invariant `Valid()` has two parts. No identifier is
discovered twice. Every connected record is filed under its own identifier.
Every state-changing method keeps this invariant. Each method states its whole
new state through `Discovered()` (the values of the discovered records, in
order) and through the lemmas about `Devices.Upsert`.

## Model

| member | source | states |
|---|---|---|
| DotNet.JoinSplit | Runtime/Scripts/BluetoothManager.cs:755 | `string.Split` loses nothing: joining the pieces with the separator gives the original string back |
| Hex.BitConverterPipelineIsEncode | Runtime/Scripts/BluetoothManager.cs:396 | `BitConverter.ToString(data).Replace("-", "").ToLower()` is exactly the lower-case hex pair encoding of the bytes |
| Hex.Encode | Runtime/Scripts/BluetoothManager.cs:396 | the outbound wire form has exactly two characters per byte; its meaning is carried by `Hex.EncodeShape` and `Hex.DecodeEncode` |
| Hex.UpperPairLowered | Runtime/Scripts/BluetoothManager.cs:396 | an upper-case `BitConverter` pair holds no '-' and lower-cases to the lower-case pair |
| Hex.EncodeShape | Runtime/Scripts/BluetoothManager.cs:396 | the wire form is 2·n characters, all lower-case hex digits, and characters 2k and 2k+1 are the high and low digit of byte k |
| Hex.DecodePairsMeaning | Runtime/Scripts/CharacteristicValueMessage.cs:34-38 | pairwise `Convert.ToByte(_, 16)` decoding succeeds iff every character is a hex digit of either case, and then byte k is the value of characters 2k and 2k+1 |
| Hex.DecodePairs | Runtime/Scripts/CharacteristicValueMessage.cs:34-38 | a successful pairwise decode yields \|s\|/2 bytes, the first being `Convert.ToByte` of the first pair; the full meaning is `Hex.DecodePairsMeaning` |
| Hex.PairDecodes | Runtime/Scripts/CharacteristicValueMessage.cs:37 | `Convert.ToByte` reads a lower-case pair back as its byte |
| Hex.DecodeEncode | Runtime/Scripts/CharacteristicValueMessage.cs:29-40 | round trip: decoding the outbound encoding gives back the bytes that were written |
| Hex.EncodeExamples | Runtime/Scripts/BluetoothManager.cs:396 | [0x01, 0xFF, 0x00] is sent as "01ff00" and decodes back |
| Hex.EncodeExamplePayload | Runtime/Scripts/BluetoothManager.cs:396 | [0x4c, 0x00, 0xab] is sent as "4c00ab" |
| WireFormat.ParseFlag | Runtime/Scripts/BluetoothManager.cs:657 | a flag payload means true exactly when it is the one-character string "1" |
| WireFormat.SplitHead | Runtime/Scripts/BluetoothManager.cs:755 | the first piece of a split is the text before the first separator (all of it when there is none), and a second piece exists exactly when the separator occurs |
| WireFormat.ParseConnectionFailed | Runtime/Scripts/BluetoothManager.cs:755-757 | with no '\|' the id is the whole text and the error "Unknown error"; otherwise the id is the text before the first '\|' (the error is characterized by `WireFormat.ConnectionFailedFields`) |
| WireFormat.ConnectionFailedFields | Runtime/Scripts/BluetoothManager.cs:753-760 | the failure record's device id is the text before the first '\|', and its error is the text up to the next '\|', or "Unknown error" when there is no '\|' |
| WireFormat.ConnectionFailedExamples | Runtime/Scripts/BluetoothManager.cs:755-757 | "d\|e" gives ("d", "e") and "d" gives ("d", "Unknown error") |
| WireFormat.ConnectionFailedExtraField | Runtime/Scripts/BluetoothManager.cs:755-757 | text after a second bar is dropped: "d\|e\|f" gives ("d", "e") |
| CharacteristicValues.NewEmptyMessage | Runtime/Scripts/CharacteristicValueMessage.cs:13-16 | the parameterless message has data "" and null ids |
| CharacteristicValues.NewMessage | Runtime/Scripts/CharacteristicValueMessage.cs:18-23 | a null payload is stored as "", and everything else is kept as given |
| CharacteristicValues.DataAsBytes | Runtime/Scripts/CharacteristicValueMessage.cs:29-40 | decoding can fail only for non-empty even-length data; a success has 0 bytes for null, empty or odd data and \|data\|/2 bytes otherwise (the full meaning is `CharacteristicValues.DataAsBytesMeaning`) |
| CharacteristicValues.DataAsBytesMeaning | Runtime/Scripts/CharacteristicValueMessage.cs:29-40 | null, empty and odd payloads give no bytes; an even payload fails iff it holds a non-hex character, and otherwise gives \|data\|/2 bytes, pair by pair |
| CharacteristicValues.DataAsBytesOfEncoding | Runtime/Scripts/CharacteristicValueMessage.cs:29-40 | a payload produced by `WriteCharacteristic` decodes to the bytes that were written |
| CharacteristicValues.GetDataAsBytes | Runtime/Scripts/CharacteristicValueMessage.cs:29-40 | the loop fills the array with exactly the decoded bytes, or fails exactly when decoding fails |
| CharacteristicValues.GetDataLength | Runtime/Scripts/CharacteristicValueMessage.cs:46-49 | as written: 0 for null or empty data, otherwise half the length rounded down |
| CharacteristicValues.DataLengthAgreement | Runtime/Scripts/CharacteristicValueMessage.cs:46-49 | the reported length equals the decoded byte count iff the data is null, empty, even-length or one character long |
| CharacteristicValues.DataLengthOddPayload | Runtime/Scripts/CharacteristicValueMessage.cs:46-49 | "abc" reports a length of 1 but decodes to no bytes |
| CharacteristicValues.DecodedLength | Runtime/Scripts/CharacteristicValueMessage.cs:43-49 | the documented "number of bytes in the data": the length of what `GetDataAsBytes` returns whenever it does not throw |
| WriteResults.NewEmptyResult | Runtime/Scripts/CharacteristicWriteResult.cs:13-16 | the parameterless result is a success with error "" |
| WriteResults.NewResult | Runtime/Scripts/CharacteristicWriteResult.cs:18-23 | the error argument defaults to null; a null error is stored as ""; the result is a success iff the given error is null or empty |
| WriteResults.CharacteristicWriteResult.IsSuccess | Runtime/Scripts/CharacteristicWriteResult.cs:29-32 | a success has no error text (null or ""); a non-success has a non-empty error text |
| WriteResults.CharacteristicWriteResult.IsError | Runtime/Scripts/CharacteristicWriteResult.cs:38-41 | an error exactly when not a success |
| WriteResults.CharacteristicWriteResult.ToString | Runtime/Scripts/CharacteristicWriteResult.cs:43-53 | the text starts with the device and characteristic prefix; the status part is stated by `WriteResults.ToStringStatus` |
| WriteResults.SuccessXorError | Runtime/Scripts/CharacteristicWriteResult.cs:29-41 | every result is exactly one of success and error |
| WriteResults.ToStringStatus | Runtime/Scripts/CharacteristicWriteResult.cs:43-53 | the printed status is "Success)" iff the result is a success, and "Error - " + error + ")" for an error |
| WriteResults.ToStringDeterminesOutcome | Runtime/Scripts/CharacteristicWriteResult.cs:43-53 | two results for the same device and characteristic that print alike agree on the outcome and the error text |
| WriteResults.StatusPhraseInErrorText | Runtime/Scripts/CharacteristicWriteResult.cs:43-53 | an error whose text is "Status: Success" still prints that phrase, so the substring alone does not mean success |
| Characteristics.BluetoothCharacteristic.CanRead | Runtime/Scripts/BluetoothCharacteristic.cs:28-31 | true iff "read" is listed |
| Characteristics.BluetoothCharacteristic.CanWrite | Runtime/Scripts/BluetoothCharacteristic.cs:33-36 | true iff "write" or "writeWithoutResponse" is listed |
| Characteristics.BluetoothCharacteristic.CanNotify | Runtime/Scripts/BluetoothCharacteristic.cs:38-41 | true iff "notify" or "indicate" is listed |
| Characteristics.BluetoothCharacteristic.HasWriteWithoutResponse | Runtime/Scripts/BluetoothCharacteristic.cs:43-46 | true iff "writeWithoutResponse" is listed |
| Characteristics.NewEmptyCharacteristic | Runtime/Scripts/BluetoothCharacteristic.cs:14-18 | no properties, not notifying, no capability |
| Characteristics.NewCharacteristic | Runtime/Scripts/BluetoothCharacteristic.cs:20-26 | a null property array becomes an empty one (no capability); `isNotifying` defaults to false and is stored as given |
| Characteristics.WriteWithoutResponseCanWrite | Runtime/Scripts/BluetoothCharacteristic.cs:33-46 | write-without-response implies can-write |
| Characteristics.CapabilitiesAreCaseSensitive | Runtime/Scripts/BluetoothCharacteristic.cs:28-41 | matching is ordinal: "Read", "NOTIFY" and "Write" grant nothing |
| Devices.DeviceInfo.RefreshedBy | Runtime/Scripts/BluetoothManager.cs:673-678 | a rediscovery takes rssi, services, manufacturer data, local name and tx power from the advertisement, and keeps id, name and the connectable flag |
| Devices.Placeholder | Runtime/Scripts/BluetoothManager.cs:721-729 | the unknown-device record is "Unknown Device" at 0 dBm with the given id |
| Devices.Device.constructor | Runtime/Scripts/BluetoothManager.cs:667 | a decoded record becomes an object holding exactly its fields |
| Devices.Device.Refresh | Runtime/Scripts/BluetoothManager.cs:674-678 | in place, the object's value becomes the old value refreshed by the advertisement |
| Devices.Infos | Runtime/Scripts/BluetoothManager.cs:121 | the values of the stored objects, position by position |
| Devices.IndexOfId | Runtime/Scripts/BluetoothManager.cs:670 | `List.Find` by id: the first record with the id, or none exactly when the id is not held |
| Devices.IndexOfUniqueId | Runtime/Scripts/BluetoothManager.cs:261 | in a registry without duplicates, the record with an id is found at its own position |
| Devices.Upsert | Runtime/Scripts/BluetoothManager.cs:669-686 | one discovery on the registry's values: the length grows by one exactly for a new id, which is appended at the end, and no record changes its id or position (the rest is `Devices.UpsertProperties`) |
| Devices.UpsertProperties | Runtime/Scripts/BluetoothManager.cs:663-694 | discovery keeps ids unique, adds the new id, grows by one exactly when the id is new (appended at the end), moves no record, and leaves the id's record with the advertised fields |
| Devices.DiscoverAllProperties | Runtime/Scripts/BluetoothManager.cs:663-694 | after any sequence of discoveries, each advertised id is held exactly once and earlier records keep their positions |
| Devices.RediscoveryKeepsLatestSignal | Runtime/Scripts/BluetoothManager.cs:669-680 | advertisements at -60 and then -40 dBm leave one record, at -40 dBm |
| Devices.NativeMatchIndex | Runtime/Scripts/BluetoothManager.cs:708-717 | the first index of the plugin's table that describes the id, or none exactly when no entry does |
| Devices.ConnectedRecord | Runtime/Scripts/BluetoothManager.cs:700-732 | the record stored for a connection always carries the connected id |
| Devices.ConnectedRecordChoice | Runtime/Scripts/BluetoothManager.cs:700-732 | a connection stores the discovered record if there is one, else the first matching native entry, else the placeholder |
| RuntimeManager.DisconnectRequests | Runtime/Scripts/BluetoothManager.cs:646-651 | one disconnect request per listed id |
| RuntimeManager.DisconnectRequestsAt | Runtime/Scripts/BluetoothManager.cs:646-651 | request k disconnects id k |
| RuntimeManager.DisconnectRequestsCover | Runtime/Scripts/BluetoothManager.cs:646-651 | a duplicate-free listing of the keys disconnects every key exactly once |
| RuntimeManager.BluetoothManager.constructor | Runtime/Scripts/BluetoothManager.cs:121-123 | empty lists, not initialized, and the invariant holds |
| RuntimeManager.BluetoothManager.Initialize | Runtime/Scripts/BluetoothManager.cs:16-26 | the first call initializes the plugin and requests permissions; later calls change nothing |
| RuntimeManager.BluetoothManager.RequestPermissions | Runtime/Scripts/BluetoothManager.cs:142-151 | one permission request |
| RuntimeManager.BluetoothManager.StartScanning | Runtime/Scripts/BluetoothManager.cs:156-166 | the discovered list is emptied, connections are kept, and a scan is started |
| RuntimeManager.BluetoothManager.StopScanning | Runtime/Scripts/BluetoothManager.cs:171-177 | one stop request; the list is kept |
| RuntimeManager.BluetoothManager.ConnectToDevice | Runtime/Scripts/BluetoothManager.cs:183-192 | one connect request; the state waits for the callback |
| RuntimeManager.BluetoothManager.DisconnectDevice | Runtime/Scripts/BluetoothManager.cs:198-207 | one disconnect request; the record stays until the callback |
| RuntimeManager.BluetoothManager.GetDiscoveredDevices | Runtime/Scripts/BluetoothManager.cs:240-243 | a new list with the same records in the same order |
| RuntimeManager.BluetoothManager.ClearDiscoveredDevices | Runtime/Scripts/BluetoothManager.cs:248-252 | the list is emptied, connections are kept, and the invariant holds |
| RuntimeManager.BluetoothManager.GetDiscoveredDevice | Runtime/Scripts/BluetoothManager.cs:259-262 | null iff the id is not discovered; otherwise a discovered object with that id |
| RuntimeManager.BluetoothManager.IsDeviceDiscovered | Runtime/Scripts/BluetoothManager.cs:269-272 | true iff some discovered record has the id |
| RuntimeManager.BluetoothManager.ConnectedDeviceIds | Runtime/Scripts/BluetoothManager.cs:646 | the snapshot of the dictionary's keys holds every connected id exactly once |
| RuntimeManager.BluetoothManager.GetConnectedDevices | Runtime/Scripts/BluetoothManager.cs:278-281 | a new list holding exactly the connected records, one per connected id |
| RuntimeManager.BluetoothManager.GetConnectedDevice | Runtime/Scripts/BluetoothManager.cs:288-291 | the record filed under the id, or null iff none is |
| RuntimeManager.BluetoothManager.GetConnectedDeviceCount | Runtime/Scripts/BluetoothManager.cs:297-300 | the number of connected ids |
| RuntimeManager.BluetoothManager.GetDiscoveredDeviceByIndex | Runtime/Scripts/BluetoothManager.cs:337-343 | the record at a valid position, and null for any other index |
| RuntimeManager.BluetoothManager.WriteCharacteristic | Runtime/Scripts/BluetoothManager.cs:375-406 | nothing is sent for a null or empty id, UUID or payload; otherwise one write carrying the lower-case hex encoding of the bytes |
| RuntimeManager.BluetoothManager.WriteCharacteristicHex | Runtime/Scripts/BluetoothManager.cs:414-443 | the same guards; the text is forwarded unchanged |
| RuntimeManager.BluetoothManager.SubscribeToCharacteristic | Runtime/Scripts/BluetoothManager.cs:450-472 | nothing for a null or empty id or UUID; otherwise one subscribe request |
| RuntimeManager.BluetoothManager.UnsubscribeFromCharacteristic | Runtime/Scripts/BluetoothManager.cs:479-501 | nothing for a null or empty id or UUID; otherwise one unsubscribe request |
| RuntimeManager.BluetoothManager.DisconnectAllDevices | Runtime/Scripts/BluetoothManager.cs:644-652 | earlier commands are kept, and the new commands disconnect every connected id exactly once; the dictionary is untouched |
| RuntimeManager.BluetoothManager.OnBluetoothStateChangedNative | Runtime/Scripts/BluetoothManager.cs:655-660 | one state event, enabled iff the payload is "1" |
| RuntimeManager.BluetoothManager.RefreshDiscovered | Runtime/Scripts/BluetoothManager.cs:671-680 | the record at i is refreshed in place and no other record changes |
| RuntimeManager.BluetoothManager.AppendDiscovered | Runtime/Scripts/BluetoothManager.cs:681-686 | a new object for the record goes at the end, and the existing objects stay in place |
| RuntimeManager.BluetoothManager.Discover | Runtime/Scripts/BluetoothManager.cs:670-686 | the discovered values become `Upsert` of the old ones; a known id keeps the same objects, a new id appends a fresh one |
| RuntimeManager.BluetoothManager.OnDeviceDiscoveredNative | Runtime/Scripts/BluetoothManager.cs:663-694 | undecodable JSON changes nothing; otherwise the registry is upserted (refresh in place or append) with the invariant kept, and one event carries the decoded record |
| RuntimeManager.BluetoothManager.OnDeviceConnectedNative | Runtime/Scripts/BluetoothManager.cs:697-735 | the id is filed with the discovered object itself (aliased), else a new object for the first native match, else a placeholder; the count grows only for a new id; one event |
| RuntimeManager.BluetoothManager.StoreConnection | Runtime/Scripts/BluetoothManager.cs:732 | the dictionary gains or replaces exactly this entry, and its count follows |
| RuntimeManager.BluetoothManager.FindNativeDevice | Runtime/Scripts/BluetoothManager.cs:705-718 | the search returns a new object for the first matching native entry, or null iff none matches |
| RuntimeManager.BluetoothManager.OnDeviceDisconnectedNative | Runtime/Scripts/BluetoothManager.cs:738-750 | only this id's entry is removed (none if it is unknown); the event is raised either way |
| RuntimeManager.BluetoothManager.OnConnectionFailedNative | Runtime/Scripts/BluetoothManager.cs:753-760 | one failure event with the parsed id and error |
| RuntimeManager.BluetoothManager.OnPermissionResultNative | Runtime/Scripts/BluetoothManager.cs:763-768 | one permission event, granted iff the payload is "1" |
| RuntimeManager.BluetoothManager.OnCharacteristicValueReceivedNative | Runtime/Scripts/BluetoothManager.cs:771-783 | a decoded message is passed on as one event; undecodable JSON raises nothing |
| RuntimeManager.BluetoothManager.OnCharacteristicWriteSuccessNative | Runtime/Scripts/BluetoothManager.cs:786-798 | a decoded result is passed on as one success event; undecodable JSON raises nothing |
| RuntimeManager.BluetoothManager.OnCharacteristicWriteErrorNative | Runtime/Scripts/BluetoothManager.cs:801-813 | a decoded result is passed on as one error event; undecodable JSON raises nothing |
| RuntimeManager.RediscoveryKeepsOneRecord | Runtime/Scripts/BluetoothManager.cs:663-694 | on a fresh manager, two advertisements of one device leave one record at the latest signal and raise two events |
| SampleManager.NewSampleDevice | Assets/Plugins/UnityBLE2IOS/Scripts/BluetoothDevice.cs:15-18 | only the service list is set, to empty |
| SampleManager.NewSampleDeviceWith | Assets/Plugins/UnityBLE2IOS/Scripts/BluetoothDevice.cs:20-27 | the given fields (rssi defaults to 0, connectable to true), and no services |
| SampleManager.BluetoothManager.constructor | Assets/Plugins/UnityBLE2IOS/Scripts/BluetoothManager.cs:60-61 | an empty list, not initialized |
| SampleManager.BluetoothManager.Initialize | Assets/Plugins/UnityBLE2IOS/Scripts/BluetoothManager.cs:79-88 | the first call initializes the plugin (no permission request); later calls change nothing |
| SampleManager.BluetoothManager.RequestPermissions | Assets/Plugins/UnityBLE2IOS/Scripts/BluetoothManager.cs:93-102 | one permission request |
| SampleManager.BluetoothManager.StartScanning | Assets/Plugins/UnityBLE2IOS/Scripts/BluetoothManager.cs:107-117 | the list is emptied and a scan is started |
| SampleManager.BluetoothManager.StopScanning | Assets/Plugins/UnityBLE2IOS/Scripts/BluetoothManager.cs:122-128 | one stop request |
| SampleManager.BluetoothManager.ConnectToDevice | Assets/Plugins/UnityBLE2IOS/Scripts/BluetoothManager.cs:134-143 | one connect request |
| SampleManager.BluetoothManager.DisconnectDevice | Assets/Plugins/UnityBLE2IOS/Scripts/BluetoothManager.cs:149-158 | one disconnect request |
| SampleManager.BluetoothManager.GetDiscoveredDevices | Assets/Plugins/UnityBLE2IOS/Scripts/BluetoothManager.cs:191-194 | a new list with the same records in the same order |
| SampleManager.BluetoothManager.OnBluetoothStateChangedNative | Assets/Plugins/UnityBLE2IOS/Scripts/BluetoothManager.cs:197-202 | one state event, enabled iff the payload is "1" |
| SampleManager.BluetoothManager.OnDeviceDiscoveredNative | Assets/Plugins/UnityBLE2IOS/Scripts/BluetoothManager.cs:205-218 | undecodable JSON changes nothing; otherwise the record is appended (duplicates included) and one event is raised |
| SampleManager.BluetoothManager.OnDeviceConnectedNative | Assets/Plugins/UnityBLE2IOS/Scripts/BluetoothManager.cs:221-225 | one event; no state is kept |
| SampleManager.BluetoothManager.OnDeviceDisconnectedNative | Assets/Plugins/UnityBLE2IOS/Scripts/BluetoothManager.cs:228-232 | one event; no state is kept |
| SampleManager.BluetoothManager.OnConnectionFailedNative | Assets/Plugins/UnityBLE2IOS/Scripts/BluetoothManager.cs:235-242 | one failure event with the parsed id and error |
| SampleManager.BluetoothManager.OnPermissionResultNative | Assets/Plugins/UnityBLE2IOS/Scripts/BluetoothManager.cs:245-250 | one permission event, granted iff the payload is "1" |
| SampleManager.RediscoveryDuplicates | Assets/Plugins/UnityBLE2IOS/Scripts/BluetoothManager.cs:205-218 | two advertisements of one device leave two entries with the same id |
| SampleManager.InitializeTwice | Assets/Plugins/UnityBLE2IOS/Scripts/BluetoothManager.cs:79-88 | a second `Initialize` issues nothing more |

## Left out

- Editor builds: these are the `UNITY_EDITOR` branches, simulated discovery and the coroutine. The model follows the iOS device build. The one exception is `GetDiscoveredDeviceByIndex`, which is modelled as the editor builds it.
- The iOS branch of `GetDiscoveredDeviceByIndex` and `GetDiscoveredDeviceCount` are native queries. `OnDeviceConnectedNative` receives their answers as the `native` table parameter, one entry per index, and `None` marks an empty or undecodable entry.
- `IsBluetoothEnabled` and `IsDeviceConnected` are left out because they only return what the plugin answers.
- `GetDeviceCharacteristics`, `GetDeviceServices` and `GetServiceCharacteristics` are left out because they are native queries followed by JSON decoding of wrapper arrays. `BluetoothService` is not part of this model.
- `GetConnectionStatus` is left out because it only builds a diagnostic string.
- Logging is not modelled because it changes no state.
- The singleton plumbing (`Instance`, `HasInstance`, `Awake`, `DontDestroyOnLoad`) is not modelled. Each model manager is one object.
- `ToString` of the device, message and characteristic records is not modelled; those are diagnostic strings. `CharacteristicWriteResult.ToString` is modelled.
- JSON decoding (`JsonUtility.FromJson`) is not modelled. Callbacks receive the decoded record as an `Option`, and `None` is the path where the catch block only logs.
- A JSON payload that decodes to a null object is not modelled; the code would then add null or throw, depending on the list.
- The runtime package's `BluetoothDevice` class is not part of this model. Its record is taken to have the fields the manager reads and writes. Null strings are modelled as "", and the placeholder's other fields take defaults.
- `OnConnectionFailedNative` with a null payload throws `NullReferenceException` outside any catch block; payloads are modelled as non-null strings.
- `Convert.ToByte` also accepts a leading '+' sign and an "0x" prefix; `DotNet.ConvertToByteBase16` accepts exactly two hex digits.
- `ToLower` is culture-sensitive in .NET. It is modelled on the ASCII letters, which are the only letters `BitConverter` produces.
- `DisconnectAllDevices` iterates the keys in the dictionary's own order. That order is left unspecified: the model proves each key is requested once, in some order.
- 32-bit `int` limits (rssi, lengths) are not modelled. Integers are unbounded.
- `SampleManager.BluetoothManager` devices are values, not objects, because the sample never updates a stored record.
- Threading is not modelled. Unity delivers all callbacks on the main thread, one at a time.
- Devices.Device.deviceId is a constant field, because nothing in the managers writes it after the record is built.
- A connection state machine, request correlation and timeouts are described for the system, but the code has none of them; the model follows the code.
- `GetDataAsBytes` returns an empty array for odd-length data; the model follows the code, not a decode error.

## Findings

| source | as written | input that shows it | evidently intended | confidence | as-written member | corrected member |
|---|---|---|---|---|---|---|
| Runtime/Scripts/CharacteristicValueMessage.cs:46-49 | `GetDataLength` returns `data.Length / 2` for any non-empty data, odd lengths included, while `GetDataAsBytes` returns no bytes for odd-length data | data "abc": `GetDataLength` is 1 but `GetDataAsBytes` yields an empty array | the documented "number of bytes in the data", that is, 0 whenever no bytes are produced | not executed | CharacteristicValues.DataLengthOddPayload | CharacteristicValues.DecodedLength |
