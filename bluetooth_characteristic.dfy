/** `BluetoothCharacteristic`: a GATT characteristic as reported by the
    native layer, with its capability strings ("read", "write",
    "writeWithoutResponse", "notify", "indicate") and the capability
    queries built on them. */
module Characteristics {
  import opened Wrappers
  import opened DotNet

  datatype BluetoothCharacteristic = BluetoothCharacteristic(
    serviceUUID: NullableString,
    characteristicUUID: NullableString,
    properties: seq<string>,
    isNotifying: bool)
  {
    /** `CanRead()`: `Array.IndexOf(properties, "read") >= 0`. */
    function CanRead(): (can: bool)
      ensures can <==> "read" in properties
    {
      IndexOf(properties, "read") >= 0
    }

    /** `CanWrite()`: either write property is listed. */
    function CanWrite(): (can: bool)
      ensures can <==> "write" in properties || "writeWithoutResponse" in properties
    {
      IndexOf(properties, "write") >= 0 || IndexOf(properties, "writeWithoutResponse") >= 0
    }

    /** `CanNotify()`: notifications or indications are listed. */
    function CanNotify(): (can: bool)
      ensures can <==> "notify" in properties || "indicate" in properties
    {
      IndexOf(properties, "notify") >= 0 || IndexOf(properties, "indicate") >= 0
    }

    /** `HasWriteWithoutResponse()`. */
    function HasWriteWithoutResponse(): (has: bool)
      ensures has <==> "writeWithoutResponse" in properties
    {
      IndexOf(properties, "writeWithoutResponse") >= 0
    }
  }

  /** The parameterless constructor: no properties, not notifying. */
  function NewEmptyCharacteristic(): (c: BluetoothCharacteristic)
    ensures c.properties == [] && !c.isNotifying
    ensures !c.CanRead() && !c.CanWrite() && !c.CanNotify() && !c.HasWriteWithoutResponse()
  {
    BluetoothCharacteristic(None, None, [], false)
  }

  /** The four-argument constructor (`isNotifying` defaults to false): a null property array is stored as an empty one, and
      `isNotifying` is taken as given, whatever the properties say. */
  function NewCharacteristic(serviceUUID: NullableString, characteristicUUID: NullableString,
                             properties: Option<seq<string>>, isNotifying: bool := false): (c: BluetoothCharacteristic)
    ensures properties.Some? ==> c.properties == properties.value
    ensures properties.None? ==>
              c.properties == [] && !c.CanRead() && !c.CanWrite() && !c.CanNotify() && !c.HasWriteWithoutResponse()
    ensures c.isNotifying == isNotifying
    ensures c.serviceUUID == serviceUUID && c.characteristicUUID == characteristicUUID
  {
    BluetoothCharacteristic(serviceUUID, characteristicUUID,
                            if properties.Some? then properties.value else [], isNotifying)
  }

  /** A characteristic that can write without response can write. */
  lemma WriteWithoutResponseCanWrite(c: BluetoothCharacteristic)
    ensures c.HasWriteWithoutResponse() ==> c.CanWrite()
  {
  }

  /** Matching is ordinal and case-sensitive: "Read", "NOTIFY" and
      "Write" grant nothing. */
  lemma CapabilitiesAreCaseSensitive()
    ensures var c := NewCharacteristic(None, None, Some(["Read", "NOTIFY", "Write"]), true);
            !c.CanRead() && !c.CanNotify() && !c.CanWrite() && c.isNotifying
  {
    var c := NewCharacteristic(None, None, Some(["Read", "NOTIFY", "Write"]), true);
    assert c.properties[0] != "read" && c.properties[1] != "notify" && c.properties[2] != "write";
    assert c.properties[0][0] != 'r' && c.properties[1][0] != 'n' && c.properties[2][0] != 'w';
  }
}
