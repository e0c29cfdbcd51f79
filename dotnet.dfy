/** The few pieces of the .NET base library whose behaviour the Bluetooth
    core depends on, written out so that the core's contracts can be proved:
    `string.IsNullOrEmpty`, `??`, `Array.IndexOf`, `string.Split(char)`,
    `BitConverter.ToString(byte[])`, `string.Replace`, `string.ToLower` and
    `Convert.ToByte(string, 16)`. */
module DotNet {
  import opened Wrappers

  /** A C# `byte`. */
  type byte = x: int | 0 <= x < 256

  /** A C# string reference; `None` is `null`. */
  type NullableString = Option<string>

  /** `string.IsNullOrEmpty(s)`. */
  predicate IsNullOrEmpty(s: NullableString) {
    s.None? || s.value == ""
  }

  /** The null-coalescing expression `s ?? ""`, also what string
      interpolation prints for a null string. */
  function OrEmpty(s: NullableString): string {
    if s.None? then "" else s.value
  }

  /** `Array.IndexOf(a, x)`: the first index holding `x` (ordinal equality
      for strings), or -1 when there is none. */
  function IndexOf<T(==)>(a: seq<T>, x: T): (r: int)
    ensures -1 <= r < |a|
    ensures r < 0 <==> x !in a
    ensures 0 <= r ==> a[r] == x && forall j :: 0 <= j < r ==> a[j] != x
  {
    if |a| == 0 then -1
    else if a[0] == x then 0
    else
      var k := IndexOf(a[1..], x);
      if k < 0 then -1 else k + 1
  }

  // ---------------------------------------------------------------------
  // string.Split(char)

  /** `s.Split(sep)`: the pieces between separators, in order; the empty
      string and a string without `sep` both give one piece. */
  function Split(s: string, sep: char): (parts: seq<string>)
    ensures |parts| >= 1
    ensures forall i :: 0 <= i < |parts| ==> sep !in parts[i]
    decreases |s|
  {
    if sep !in s then [s]
    else
      var k := IndexOf(s, sep);
      [s[..k]] + Split(s[k + 1..], sep)
  }

  /** `string.Join(sep, parts)`, the inverse of `Split`. */
  function Join(parts: seq<string>, sep: char): string
    requires |parts| >= 1
  {
    if |parts| == 1 then parts[0] else parts[0] + [sep] + Join(parts[1..], sep)
  }

  /** Splitting loses nothing: joining the pieces back gives the input. */
  lemma {:induction false} JoinSplit(s: string, sep: char)
    ensures Join(Split(s, sep), sep) == s
    decreases |s|
  {
    if sep in s {
      var k := IndexOf(s, sep);
      var rest := s[k + 1..];
      JoinSplit(rest, sep);
      JoinSplitStep(s, sep, k, Split(rest, sep));
    }
  }

  /** One separator's worth of `JoinSplit`. */
  lemma JoinSplitStep(s: string, sep: char, k: int, tail: seq<string>)
    requires sep in s && k == IndexOf(s, sep)
    requires tail == Split(s[k + 1..], sep) && Join(tail, sep) == s[k + 1..]
    ensures Join(Split(s, sep), sep) == s
  {
    var parts := Split(s, sep);
    assert parts == [s[..k]] + tail;
    assert parts[1..] == tail;
    assert Join(parts, sep) == s[..k] + [sep] + Join(tail, sep);
    assert s == s[..k] + [sep] + s[k + 1..];
  }

  // ---------------------------------------------------------------------
  // BitConverter.ToString(byte[]), string.Replace("-", ""), string.ToLower()

  const UpperHexDigits: string := "0123456789ABCDEF"

  /** The two upper-case hexadecimal digits of one byte. */
  function UpperPair(b: byte): string {
    [UpperHexDigits[b / 16], UpperHexDigits[b % 16]]
  }

  /** `BitConverter.ToString(bytes)`: upper-case pairs joined by '-'
      ("4C-00-AB"). */
  function BitConverterToString(bytes: seq<byte>): string {
    if |bytes| == 0 then ""
    else if |bytes| == 1 then UpperPair(bytes[0])
    else UpperPair(bytes[0]) + "-" + BitConverterToString(bytes[1..])
  }

  /** `s.Replace(c.ToString(), "")` for a one-character pattern. */
  function RemoveAll(s: string, c: char): (r: string)
    ensures c !in r
  {
    if |s| == 0 then ""
    else (if s[0] == c then "" else [s[0]]) + RemoveAll(s[1..], c)
  }

  /** `char.ToLower` on the characters a hexadecimal string can hold:
      'A'..'Z' become 'a'..'z', everything else is kept. */
  function LowerChar(c: char): char {
    if 'A' <= c <= 'Z' then (c as int + 32) as char else c
  }

  /** `s.ToLower()`, character by character. */
  function ToLower(s: string): (r: string)
    ensures |r| == |s|
  {
    if |s| == 0 then "" else [LowerChar(s[0])] + ToLower(s[1..])
  }

  lemma {:induction false} RemoveAllAppend(a: string, b: string, c: char)
    ensures RemoveAll(a + b, c) == RemoveAll(a, c) + RemoveAll(b, c)
  {
    if |a| > 0 {
      assert (a + b)[1..] == a[1..] + b;
      RemoveAllAppend(a[1..], b, c);
    } else {
      assert a + b == b;
    }
  }

  lemma {:induction false} ToLowerAppend(a: string, b: string)
    ensures ToLower(a + b) == ToLower(a) + ToLower(b)
  {
    if |a| > 0 {
      assert (a + b)[1..] == a[1..] + b;
      ToLowerAppend(a[1..], b);
    } else {
      assert a + b == b;
    }
  }

  // ---------------------------------------------------------------------
  // Convert.ToByte(string, 16)

  /** A digit `Convert.ToByte(_, 16)` accepts, in either case. */
  predicate IsHexDigit(c: char) {
    '0' <= c <= '9' || 'a' <= c <= 'f' || 'A' <= c <= 'F'
  }

  /** The value of one hexadecimal digit. */
  function HexDigitValue(c: char): (v: nat)
    requires IsHexDigit(c)
    ensures v < 16
  {
    if '0' <= c <= '9' then c as int - '0' as int
    else if 'a' <= c <= 'f' then c as int - 'a' as int + 10
    else c as int - 'A' as int + 10
  }

  /** `Convert.ToByte(pair, 16)` on a two-character string: two hexadecimal
      digits give their value; anything else ("0x", "-1", "g0", " 1") makes
      the call throw, which is `None` here. */
  function ConvertToByteBase16(pair: string): (r: Option<byte>)
    requires |pair| == 2
    ensures r.Some? <==> IsHexDigit(pair[0]) && IsHexDigit(pair[1])
  {
    if IsHexDigit(pair[0]) && IsHexDigit(pair[1])
    then Some(HexDigitValue(pair[0]) * 16 + HexDigitValue(pair[1]))
    else None
  }
}
