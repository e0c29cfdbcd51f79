/** `CharacteristicWriteResult`: the outcome of a characteristic write as
    the native layer reports it. Success and error are not separate kinds:
    a result is an error exactly when its `error` text is non-empty. */
module WriteResults {
  import opened Wrappers
  import opened DotNet

  datatype CharacteristicWriteResult = CharacteristicWriteResult(
    deviceId: NullableString,
    characteristicUUID: NullableString,
    error: NullableString)
  {
    /** `IsSuccess()`: no error text (null or empty). */
    predicate IsSuccess(): (ok: bool)
      ensures ok ==> OrEmpty(error) == ""
      ensures !ok ==> error.Some? && |error.value| > 0
    {
      IsNullOrEmpty(error)
    }

    /** `IsError()`: an error text is present. */
    predicate IsError(): (failed: bool)
      ensures failed <==> !IsSuccess()
    {
      !IsNullOrEmpty(error)
    }

    /** `ToString()`: the status part names the outcome, and the error
        text when there is one. */
    function ToString(): (s: string)
      ensures var p := StatusPrefix(deviceId, characteristicUUID);
              |p| < |s| && s[..|p|] == p
    {
      var prefix := StatusPrefix(deviceId, characteristicUUID);
      if IsSuccess() then prefix + "Success)" else prefix + "Error - " + OrEmpty(error) + ")"
    }
  }

  /** The part of `ToString()` before the outcome; null fields print as "". */
  function StatusPrefix(deviceId: NullableString, characteristicUUID: NullableString): string {
    "CharacteristicWriteResult(Device: " + OrEmpty(deviceId) + ", Characteristic: "
      + OrEmpty(characteristicUUID) + ", Status: "
  }

  /** The parameterless constructor: no ids, error "". */
  function NewEmptyResult(): (r: CharacteristicWriteResult)
    ensures r.IsSuccess() && r.error == Some("")
  {
    CharacteristicWriteResult(None, None, Some(""))
  }

  /** The three-argument constructor; an omitted error is `None`
      (C#'s default `null`) and is stored as "". */
  function NewResult(deviceId: NullableString, characteristicUUID: NullableString,
                     error: NullableString := None): (r: CharacteristicWriteResult)
    ensures r.error.Some?
    ensures r.IsSuccess() <==> IsNullOrEmpty(error)
    ensures r.IsError() ==> r.error == error
    ensures r.deviceId == deviceId && r.characteristicUUID == characteristicUUID
  {
    CharacteristicWriteResult(deviceId, characteristicUUID, Some(OrEmpty(error)))
  }

  /** Every result is exactly one of success and error. */
  lemma SuccessXorError(r: CharacteristicWriteResult)
    ensures r.IsError() <==> !r.IsSuccess()
  {
  }

  /** `ToString()` has the success status exactly for a success, and for an
      error ends with "Error - ", the error text and ")". */
  lemma ToStringStatus(r: CharacteristicWriteResult)
    ensures var p := StatusPrefix(r.deviceId, r.characteristicUUID);
            |p| < |r.ToString()| && r.ToString()[..|p|] == p &&
            (r.IsSuccess() <==> r.ToString()[|p|..] == "Success)") &&
            (r.IsError() ==> r.ToString()[|p|..] == "Error - " + r.error.value + ")")
  {
    var p := StatusPrefix(r.deviceId, r.characteristicUUID);
    var s := r.ToString();
    if r.IsError() {
      assert s == p + ("Error - " + r.error.value + ")");
      assert s[|p|..] == "Error - " + r.error.value + ")";
      assert s[|p|..][0] == 'E';
    } else {
      assert s == p + "Success)";
    }
  }

  /** `ToString()` is faithful: two results for the same device and
      characteristic that print alike agree on success and on the error
      text. */
  lemma ToStringDeterminesOutcome(a: CharacteristicWriteResult, b: CharacteristicWriteResult)
    requires a.deviceId == b.deviceId && a.characteristicUUID == b.characteristicUUID
    requires a.ToString() == b.ToString()
    ensures a.IsSuccess() == b.IsSuccess()
    ensures a.IsError() ==> a.error.value == b.error.value
  {
    ToStringStatus(a);
    ToStringStatus(b);
    var p := StatusPrefix(a.deviceId, a.characteristicUUID);
    if a.IsError() && b.IsError() {
      var ta, tb := a.ToString()[|p|..], b.ToString()[|p|..];
      assert ta == "Error - " + a.error.value + ")" && tb == "Error - " + b.error.value + ")";
      assert a.error.value == ta[8..|ta| - 1];
    }
  }

  /** "Status: Success" as a substring does not by itself mean success:
      an error whose text contains it prints that phrase too. */
  lemma StatusPhraseInErrorText()
    ensures var r := NewResult(Some("d"), Some("c"), Some("Status: Success"));
            r.IsError() && r.ToString()[|StatusPrefix(Some("d"), Some("c"))| + 8..][..15] == "Status: Success"
  {
    var r := NewResult(Some("d"), Some("c"), Some("Status: Success"));
    ToStringStatus(r);
  }
}
