/** The calls the managers make into the native iOS plugin (the
    `[DllImport("__Internal")]` functions that return nothing). The model
    records each call, in order, instead of performing it. */
module Native {

  datatype Command =
    | InitializeBluetooth
    | RequestPermissions
    | StartScanning
    | StopScanning
    | ConnectToDevice(deviceId: string)
    | DisconnectDevice(deviceId: string)
    | WriteCharacteristic(deviceId: string, characteristicUUID: string, hexData: string)
    | SubscribeToCharacteristic(deviceId: string, characteristicUUID: string)
    | UnsubscribeFromCharacteristic(deviceId: string, characteristicUUID: string)
}
