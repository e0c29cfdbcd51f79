/** The hexadecimal wire form of byte payloads at the native boundary:
    lower-case digit pairs with no separators ("4c00ab"). Outbound writes
    produce it from a byte array; inbound characteristic values are decoded
    from it pair by pair. */
module Hex {
  import opened Wrappers
  import opened DotNet

  const LowerHexDigits: string := "0123456789abcdef"

  /** The two lower-case hexadecimal digits of one byte. */
  function LowerPair(b: byte): string {
    [LowerHexDigits[b / 16], LowerHexDigits[b % 16]]
  }

  /** The outbound wire form of a payload: one lower-case pair per byte. */
  function Encode(bytes: seq<byte>): (e: string)
    ensures |e| == 2 * |bytes|
  {
    if |bytes| == 0 then "" else LowerPair(bytes[0]) + Encode(bytes[1..])
  }

  /** The string `WriteCharacteristic` computes,
      `BitConverter.ToString(data).Replace("-", "").ToLower()`, is exactly
      the lower-case pair encoding. */
  lemma {:induction false} BitConverterPipelineIsEncode(bytes: seq<byte>)
    ensures ToLower(RemoveAll(BitConverterToString(bytes), '-')) == Encode(bytes)
  {
    if |bytes| > 0 {
      var head := UpperPair(bytes[0]);
      UpperPairLowered(bytes[0]);
      if |bytes| == 1 {
        assert Encode(bytes) == LowerPair(bytes[0]) + Encode([]);
      } else {
        var rest := BitConverterToString(bytes[1..]);
        assert BitConverterToString(bytes) == (head + "-") + rest;
        RemoveAllAppend(head + "-", rest, '-');
        RemoveAllAppend(head, "-", '-');
        assert RemoveAll("-", '-') == "";
        ToLowerAppend(head, RemoveAll(rest, '-'));
        BitConverterPipelineIsEncode(bytes[1..]);
      }
    }
  }

  /** Lower-casing an upper-case pair gives the lower-case pair, and the
      pair holds no '-'. */
  lemma UpperPairLowered(b: byte)
    ensures RemoveAll(UpperPair(b), '-') == UpperPair(b)
    ensures ToLower(UpperPair(b)) == LowerPair(b)
  {
    var u := UpperPair(b);
    UpperDigitLowered(b / 16);
    UpperDigitLowered(b % 16);
    assert u[1..][1..] == [];
    assert RemoveAll(u[1..], '-') == [u[1]];
    assert ToLower(u[1..]) == [LowerChar(u[1])];
  }

  /** An upper-case digit is not '-' and lower-cases to the lower-case
      digit of the same value. */
  lemma UpperDigitLowered(n: nat)
    requires n < 16
    ensures UpperHexDigits[n] != '-' && LowerChar(UpperHexDigits[n]) == LowerHexDigits[n]
  {
  }

  /** The encoding is 2·|bytes| long, every character is a lower-case
      hexadecimal digit (no separators), and characters 2k and 2k+1 are the
      high and low digit of byte k. */
  lemma {:induction false} EncodeShape(bytes: seq<byte>)
    ensures |Encode(bytes)| == 2 * |bytes|
    ensures forall i :: 0 <= i < |Encode(bytes)| ==> Encode(bytes)[i] in LowerHexDigits
    ensures forall k :: 0 <= k < |bytes| ==>
              Encode(bytes)[2 * k] == LowerHexDigits[bytes[k] / 16] &&
              Encode(bytes)[2 * k + 1] == LowerHexDigits[bytes[k] % 16]
  {
    if |bytes| > 0 {
      EncodeShape(bytes[1..]);
      var e := Encode(bytes);
      assert e == LowerPair(bytes[0]) + Encode(bytes[1..]);
      forall k | 1 <= k < |bytes|
        ensures e[2 * k] == LowerHexDigits[bytes[k] / 16]
        ensures e[2 * k + 1] == LowerHexDigits[bytes[k] % 16]
      {
        assert bytes[1..][k - 1] == bytes[k];
        assert e[2 * k] == Encode(bytes[1..])[2 * (k - 1)];
        assert e[2 * k + 1] == Encode(bytes[1..])[2 * (k - 1) + 1];
      }
    }
  }

  /** Decodes an even-length string pair by pair with
      `Convert.ToByte(pair, 16)`; `None` when some pair is not two
      hexadecimal digits (the call throws). */
  function DecodePairs(s: string): (d: Option<seq<byte>>)
    requires |s| % 2 == 0
    ensures d.Some? ==> |d.value| == |s| / 2
    ensures d.Some? && |s| > 0 ==> ConvertToByteBase16(s[..2]) == Some(d.value[0])
    decreases |s|
  {
    if |s| == 0 then Some([])
    else
      match ConvertToByteBase16(s[..2])
      case None => None
      case Some(b) =>
        match DecodePairs(s[2..])
        case None => None
        case Some(rest) => Some([b] + rest)
  }

  /** The value of the pair at characters 2k and 2k+1. */
  function PairValue(s: string, k: nat): byte
    requires 2 * k + 1 < |s|
    requires IsHexDigit(s[2 * k]) && IsHexDigit(s[2 * k + 1])
  {
    HexDigitValue(s[2 * k]) * 16 + HexDigitValue(s[2 * k + 1])
  }

  /** Decoding succeeds exactly when every character is a hexadecimal digit
      of either case; it then yields |s|/2 bytes, byte k being the base-16
      value of characters 2k and 2k+1. */
  lemma {:induction false} DecodePairsMeaning(s: string)
    requires |s| % 2 == 0
    ensures DecodePairs(s).Some? <==> forall i :: 0 <= i < |s| ==> IsHexDigit(s[i])
    ensures DecodePairs(s).Some? ==>
              |DecodePairs(s).value| == |s| / 2 &&
              forall k :: 0 <= k < |s| / 2 ==> DecodePairs(s).value[k] == PairValue(s, k)
    decreases |s|
  {
    if |s| > 0 {
      var t := s[2..];
      DecodePairsMeaning(t);
      assert forall i :: 2 <= i < |s| ==> s[i] == t[i - 2];
      if DecodePairs(s).Some? {
        var r := DecodePairs(s).value;
        forall k | 1 <= k < |s| / 2
          ensures r[k] == PairValue(s, k)
        {
          assert t[2 * (k - 1)] == s[2 * k] && t[2 * (k - 1) + 1] == s[2 * k + 1];
        }
      }
      if forall i :: 0 <= i < |s| ==> IsHexDigit(s[i]) {
        assert IsHexDigit(s[0]) && IsHexDigit(s[1]);
        assert forall i :: 0 <= i < |t| ==> IsHexDigit(t[i]) by {
          forall i | 0 <= i < |t| ensures IsHexDigit(t[i]) {
            assert t[i] == s[i + 2];
          }
        }
      } else {
        var i :| 0 <= i < |s| && !IsHexDigit(s[i]);
        if i >= 2 {
          assert !IsHexDigit(t[i - 2]);
        }
      }
    }
  }

  /** The lower-case digit for n is a hexadecimal digit worth n. */
  lemma LowerDigitValue(n: nat)
    requires n < 16
    ensures IsHexDigit(LowerHexDigits[n]) && HexDigitValue(LowerHexDigits[n]) == n
  {
  }

  /** `Convert.ToByte(_, 16)` reads a lower-case pair back as its byte. */
  lemma PairDecodes(b: byte)
    ensures ConvertToByteBase16(LowerPair(b)) == Some(b)
  {
    LowerDigitValue(b / 16);
    LowerDigitValue(b % 16);
  }

  /** Decoding a pair followed by more pairs. */
  lemma DecodePairsPrefix(p: string, rest: string, b: byte, r: seq<byte>)
    requires |p| == 2 && |rest| % 2 == 0
    requires ConvertToByteBase16(p) == Some(b) && DecodePairs(rest) == Some(r)
    ensures DecodePairs(p + rest) == Some([b] + r)
  {
    var s := p + rest;
    assert s[..2] == p && s[2..] == rest;
  }

  lemma DoubleIsEven(n: nat)
    ensures (2 * n) % 2 == 0
  {
  }

  /** Round trip: decoding the lower-case encoding gives the bytes back. */
  lemma {:induction false} DecodeEncode(bytes: seq<byte>)
    ensures |Encode(bytes)| % 2 == 0
    ensures DecodePairs(Encode(bytes)) == Some(bytes)
  {
    DoubleIsEven(|bytes|);
    if |bytes| > 0 {
      var b, tail := bytes[0], bytes[1..];
      DecodeEncode(tail);
      PairDecodes(b);
      assert Encode(bytes) == LowerPair(b) + Encode(tail);
      DecodePairsPrefix(LowerPair(b), Encode(tail), b, tail);
      assert [b] + tail == bytes;
    }
  }

  /** The boundary's worked example: [0x01, 0xFF, 0x00] is "01ff00" and
      back. */
  lemma EncodeExamples()
    ensures Encode([0x01, 0xFF, 0x00]) == "01ff00"
    ensures DecodePairs("01ff00") == Some([0x01, 0xFF, 0x00])
  {
    assert LowerPair(0x01) == "01" && LowerPair(0xFF) == "ff" && LowerPair(0x00) == "00";
    assert Encode([0x00]) == "00";
    assert Encode([0xFF, 0x00]) == "ff" + Encode([0x00]);
    assert Encode([0x01, 0xFF, 0x00]) == "01" + Encode([0xFF, 0x00]);
    DecodeEncode([0x01, 0xFF, 0x00]);
  }

  /** The boundary's second example: [0x4c, 0x00, 0xab] is "4c00ab". */
  lemma EncodeExamplePayload()
    ensures Encode([0x4c, 0x00, 0xab]) == "4c00ab"
  {
    assert LowerPair(0x4c) == "4c" && LowerPair(0x00) == "00" && LowerPair(0xab) == "ab";
    assert Encode([0xab]) == "ab";
    assert Encode([0x00, 0xab]) == "00" + Encode([0xab]);
    assert Encode([0x4c, 0x00, 0xab]) == "4c" + Encode([0x00, 0xab]);
  }
}
