/** `CharacteristicValueMessage`: a value notification from a peripheral,
    whose payload travels as a hexadecimal string and is decoded into bytes
    on request. */
module CharacteristicValues {
  import opened Wrappers
  import opened DotNet
  import Hex

  /** The exception `Convert.ToByte` throws out of `GetDataAsBytes` when a
      pair is not two hexadecimal digits. */
  datatype DecodeError = FormatError

  /** The message's three public fields; any of them may be null. */
  datatype CharacteristicValueMessage = CharacteristicValueMessage(
    deviceId: NullableString,
    characteristicUUID: NullableString,
    data: NullableString)

  /** The parameterless constructor: only `data` is set, to "". */
  function NewEmptyMessage(): (m: CharacteristicValueMessage)
    ensures m.data == Some("")
    ensures m.deviceId.None? && m.characteristicUUID.None?
  {
    CharacteristicValueMessage(None, None, Some(""))
  }

  /** The three-argument constructor: a null payload is stored as "". */
  function NewMessage(deviceId: NullableString, characteristicUUID: NullableString,
                      data: NullableString): (m: CharacteristicValueMessage)
    ensures m.data.Some?
    ensures data.Some? ==> m.data == data
    ensures data.None? ==> m.data.value == ""
    ensures m.deviceId == deviceId && m.characteristicUUID == characteristicUUID
  {
    CharacteristicValueMessage(deviceId, characteristicUUID, Some(OrEmpty(data)))
  }

  /** What `GetDataAsBytes` produces for a payload: no bytes for a null,
      empty or odd-length payload; otherwise the pairs decoded in order, or
      the exception when one of them is not hexadecimal. */
  function DataAsBytes(data: NullableString): (r: Result<seq<byte>, DecodeError>)
    ensures r.Failure? ==> !IsNullOrEmpty(data) && |data.value| % 2 == 0
    ensures r.Success? ==>
              |r.value| == if IsNullOrEmpty(data) || |data.value| % 2 != 0 then 0 else |data.value| / 2
  {
    if IsNullOrEmpty(data) || |data.value| % 2 != 0 then Success([])
    else
      match Hex.DecodePairs(data.value)
      case None => Failure(FormatError)
      case Some(bytes) => Success(bytes)
  }

  /** Null, empty and odd-length payloads give no bytes and no error; an
      even-length payload fails exactly when it holds a character that is
      not a hexadecimal digit (never decoded as zero), and otherwise gives
      |data|/2 bytes, byte k being the base-16 value of characters 2k and
      2k+1 (digits of either case). */
  lemma DataAsBytesMeaning(data: NullableString)
    ensures IsNullOrEmpty(data) || |data.value| % 2 != 0 ==> DataAsBytes(data) == Success([])
    ensures !IsNullOrEmpty(data) && |data.value| % 2 == 0 ==>
              var s := data.value;
              (DataAsBytes(data).Failure? <==> exists i :: 0 <= i < |s| && !IsHexDigit(s[i])) &&
              (DataAsBytes(data).Success? ==>
                 |DataAsBytes(data).value| == |s| / 2 &&
                 forall k :: 0 <= k < |s| / 2 ==> DataAsBytes(data).value[k] == Hex.PairValue(s, k))
  {
    if !IsNullOrEmpty(data) && |data.value| % 2 == 0 {
      Hex.DecodePairsMeaning(data.value);
    }
  }

  /** Round trip with the outbound encoding: a payload written by
      `WriteCharacteristic` decodes to the bytes that were written. */
  lemma DataAsBytesOfEncoding(bytes: seq<byte>)
    ensures DataAsBytes(Some(Hex.Encode(bytes))) == Success(bytes)
  {
    Hex.DecodeEncode(bytes);
    Hex.EncodeShape(bytes);
  }

  /** `GetDataAsBytes`: allocates |data|/2 bytes and fills them pair by
      pair; the exception of a non-hexadecimal pair escapes. */
  method GetDataAsBytes(m: CharacteristicValueMessage) returns (r: Result<array<byte>, DecodeError>)
    ensures r.Failure? <==> DataAsBytes(m.data).Failure?
    ensures r.Success? ==> r.value[..] == DataAsBytes(m.data).value
    ensures r.Success? ==> fresh(r.value)
  {
    if IsNullOrEmpty(m.data) || |m.data.value| % 2 != 0 {
      var empty := new byte[0];
      return Success(empty);
    }
    var data := m.data.value;
    Hex.DecodePairsMeaning(data);
    var bytes := new byte[|data| / 2];
    var i := 0;
    while i < |data|
      invariant 0 <= i <= |data| && i % 2 == 0
      invariant forall j :: 0 <= j < i ==> IsHexDigit(data[j])
      invariant forall k :: 0 <= k < i / 2 ==> bytes[k] == Hex.PairValue(data, k)
    {
      var b := ConvertToByteBase16(data[i..i + 2]);
      if b.None? {
        assert !IsHexDigit(data[i]) || !IsHexDigit(data[i + 1]);
        return Failure(FormatError);
      }
      bytes[i / 2] := b.value;
      i := i + 2;
    }
    assert bytes[..] == Hex.DecodePairs(data).value;
    return Success(bytes);
  }

  /** `GetDataLength`, as written: 0 for a null or empty payload, otherwise
      |data|/2 rounded down, odd lengths included. */
  function GetDataLength(m: CharacteristicValueMessage): (n: nat)
    ensures n * 2 <= |OrEmpty(m.data)| < n * 2 + 2
  {
    if IsNullOrEmpty(m.data) then 0 else |m.data.value| / 2
  }

  /** `GetDataLength` agrees with the number of decoded bytes only for null,
      empty and even payloads, and for one-character payloads (1/2 is 0). */
  lemma DataLengthAgreement(m: CharacteristicValueMessage)
    requires DataAsBytes(m.data).Success?
    ensures GetDataLength(m) == |DataAsBytes(m.data).value| <==>
              IsNullOrEmpty(m.data) || |m.data.value| % 2 == 0 || |m.data.value| == 1
  {
    DataAsBytesMeaning(m.data);
  }

  /** The payload "abc" reports one byte of length but decodes to none. */
  lemma DataLengthOddPayload()
    ensures GetDataLength(NewMessage(None, None, Some("abc"))) == 1
    ensures DataAsBytes(NewMessage(None, None, Some("abc")).data) == Success([])
  {
  }

  /** The byte length `GetDataLength` is documented to return ("number of
      bytes in the data"): 0 whenever `GetDataAsBytes` yields no bytes. */
  function DecodedLength(m: CharacteristicValueMessage): (n: nat)
    ensures DataAsBytes(m.data).Success? ==> n == |DataAsBytes(m.data).value|
  {
    DataAsBytesMeaning(m.data);
    if IsNullOrEmpty(m.data) || |m.data.value| % 2 != 0 then 0 else |m.data.value| / 2
  }
}
