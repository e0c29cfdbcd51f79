/** The two plain-text payloads the native plugin sends instead of JSON:
    boolean flags ("1" or anything else) and the connection-failure record
    "deviceId|message". Both managers parse them the same way. */
module WireFormat {
  import opened DotNet

  /** The text reported when the failure record carries no message. */
  const UnknownError: string := "Unknown error"

  /** The bluetooth-state and permission callbacks: the payload means true
      exactly when it is the one-character string "1" ("true", " 1" and ""
      all mean false). */
  function ParseFlag(payload: string): (on: bool)
    ensures on ==> |payload| == 1 && payload[0] == '1'
    ensures |payload| != 1 || payload[0] != '1' ==> !on
  {
    payload == "1"
  }

  /** `OnConnectionFailedNative`: `parts = errorInfo.Split('|')`; the device
      id is `parts[0]` (or "" when there are no parts), the error `parts[1]`
      (or "Unknown error" when there is no second part). */
  function ParseConnectionFailed(errorInfo: string): (r: (string, string))
    ensures '|' !in errorInfo ==> r == (errorInfo, UnknownError)
    ensures '|' in errorInfo ==> r.0 == errorInfo[..IndexOf(errorInfo, '|')]
  {
    SplitHead(errorInfo, '|');
    var parts := Split(errorInfo, '|');
    var deviceId := if |parts| > 0 then parts[0] else "";
    var error := if |parts| > 1 then parts[1] else UnknownError;
    (deviceId, error)
  }

  /** The first piece of a split is the text before the first separator,
      or the whole string when there is none; there is a second piece
      exactly when the separator occurs. */
  lemma SplitHead(s: string, sep: char)
    ensures sep !in s ==> Split(s, sep) == [s]
    ensures sep in s ==> |Split(s, sep)| >= 2 &&
                         Split(s, sep)[0] == s[..IndexOf(s, sep)] &&
                         Split(s, sep)[1] == Split(s[IndexOf(s, sep) + 1..], sep)[0]
  {
  }

  /** The device id is the text before the first '|' (all of it when there
      is no '|'); the error is the text between the first and the second
      '|' (up to the end when there is no second one), or "Unknown error"
      when there is no '|' at all. */
  lemma {:induction false} ConnectionFailedFields(errorInfo: string)
    ensures var (id, error) := ParseConnectionFailed(errorInfo);
            '|' !in id &&
            if '|' !in errorInfo then id == errorInfo && error == UnknownError
            else
              |id| < |errorInfo| && errorInfo[..|id| + 1] == id + "|" &&
              var rest := errorInfo[|id| + 1..];
              '|' !in error && |error| <= |rest| && rest[..|error|] == error &&
              (|error| == |rest| || rest[|error|] == '|')
  {
    SplitHead(errorInfo, '|');
    if '|' in errorInfo {
      var k := IndexOf(errorInfo, '|');
      var rest := errorInfo[k + 1..];
      SplitHead(rest, '|');
      assert errorInfo[..k + 1] == errorInfo[..k] + "|";
      if '|' in rest {
        var j := IndexOf(rest, '|');
        assert rest[..j][..j] == rest[..j];
      }
    }
  }

  /** A failure record with one message, and one with no bar at all. */
  lemma ConnectionFailedExamples()
    ensures ParseConnectionFailed("d|e") == ("d", "e")
    ensures ParseConnectionFailed("d") == ("d", UnknownError)
  {
    var s := "d|e";
    assert s[0] != '|' && s[1] == '|' && IndexOf(s, '|') == 1;
    assert s[2..] == "e" && s[..1] == "d" && '|' !in "e";
    SplitHead(s, '|');
    SplitHead("e", '|');
    assert Split(s, '|')[0] == "d" && Split(s, '|')[1] == "e";

    assert '|' !in "d";
    SplitHead("d", '|');
  }

  /** Text after a second bar is dropped. */
  lemma ConnectionFailedExtraField()
    ensures ParseConnectionFailed("d|e|f") == ("d", "e")
  {
    var t := "d|e|f";
    assert t[0] != '|' && t[1] == '|' && IndexOf(t, '|') == 1;
    assert Split(t, '|') == [t[..1]] + Split(t[2..], '|');
    assert t[..1] == "d" && t[2..] == "e|f";
    SplitTwoFields();
  }

  /** "e|f" splits into its two fields. */
  lemma SplitTwoFields()
    ensures Split("e|f", '|') == ["e", "f"]
  {
    var r := "e|f";
    assert '|' !in "f";
    assert r[0] != '|' && r[1] == '|' && IndexOf(r, '|') == 1;
    assert r[..1] == "e" && r[2..] == "f";
  }
}
