/** The deterministic string helpers of `StringExtensions`. Case mapping,
    whitespace and digit classes are restricted to ASCII. */
module StringExtensions {
  import opened Common
  import EnumerableExtensions

  // ---------------------------------------------------------------------
  // ASCII character classes and case mapping
  // ---------------------------------------------------------------------

  function ToUpperChar(c: char): char {
    if 'a' <= c <= 'z' then (c as int - 32) as char else c
  }

  function ToLowerChar(c: char): char {
    if 'A' <= c <= 'Z' then (c as int + 32) as char else c
  }

  function ToUpper(s: string): (r: string)
    ensures |r| == |s| && forall i :: 0 <= i < |s| ==> r[i] == ToUpperChar(s[i])
  {
    seq(|s|, i requires 0 <= i < |s| => ToUpperChar(s[i]))
  }

  function ToLower(s: string): (r: string)
    ensures |r| == |s| && forall i :: 0 <= i < |s| ==> r[i] == ToLowerChar(s[i])
  {
    seq(|s|, i requires 0 <= i < |s| => ToLowerChar(s[i]))
  }

  /** `Char.IsWhiteSpace` on ASCII: space, tab, line feed, vertical tab,
      form feed and carriage return. */
  predicate IsWhiteSpace(c: char) {
    c == ' ' || '\t' <= c <= '\r'
  }

  predicate IsDigit(c: char) {
    '0' <= c <= '9'
  }

  /** `string.IsNullOrWhiteSpace` for a non-null string. */
  predicate IsWhiteSpaceOnly(s: string) {
    forall i :: 0 <= i < |s| ==> IsWhiteSpace(s[i])
  }

  // ---------------------------------------------------------------------
  // IgnoreCaseContains, IgnoreCaseEquals
  // ---------------------------------------------------------------------

  /** Ordinal case-insensitive equality of two strings. */
  predicate EqualsIgnoreCase(a: string, b: string) {
    |a| == |b| && forall i :: 0 <= i < |a| ==> ToUpperChar(a[i]) == ToUpperChar(b[i])
  }

  /** `value` occurs in `s` at position `i`, ignoring case. */
  predicate MatchesAt(s: string, value: string, i: int)
    requires 0 <= i && i + |value| <= |s|
  {
    EqualsIgnoreCase(s[i..i + |value|], value)
  }

  /** `IndexOf(value, StringComparison.OrdinalIgnoreCase)`, searching from
      position `from`: the first match position, or -1. */
  function IndexOfIgnoreCase(s: string, value: string, from: nat): (r: int)
    decreases |s| - from
    ensures r == -1 || (from <= r && r + |value| <= |s| && MatchesAt(s, value, r))
    ensures r == -1 <==> forall i :: from <= i && i + |value| <= |s| ==> !MatchesAt(s, value, i)
    ensures r >= 0 ==> forall i :: from <= i < r ==> !MatchesAt(s, value, i)
  {
    if from + |value| > |s| then -1
    else if MatchesAt(s, value, from) then from
    else IndexOfIgnoreCase(s, value, from + 1)
  }

  /** Case-insensitive substring containment; the empty string is contained
      in every string. */
  function IgnoreCaseContains(s: string, value: string): (r: bool)
    ensures r <==> exists i :: 0 <= i && i + |value| <= |s| && MatchesAt(s, value, i)
    ensures |value| == 0 ==> r
  {
    assert |value| == 0 ==> MatchesAt(s, value, 0);
    IndexOfIgnoreCase(s, value, 0) != -1
  }

  /** Containment of a string of the same length is case-insensitive
      equality. */
  function IgnoreCaseEquals(s: string, value: string): (r: bool)
    ensures r <==> EqualsIgnoreCase(s, value)
  {
    assert |s| == |value| ==> s[0..|value|] == s;
    IgnoreCaseContains(s, value) && |s| == |value|
  }

  // ---------------------------------------------------------------------
  // GetLeftOfMark
  // ---------------------------------------------------------------------

  /** `IndexOf(char)`: the first position of `c` in `s`, or -1. */
  function IndexOfChar(s: string, c: char): (r: int)
    decreases |s|
    ensures -1 <= r < |s|
    ensures r == -1 <==> c !in s
    ensures r >= 0 ==> s[r] == c && c !in s[..r]
  {
    if |s| == 0 then -1
    else if s[0] == c then 0
    else
      var k := IndexOfChar(s[1..], c);
      assert k >= 0 ==> s[1..][..k] == s[1..k + 1];
      if k == -1 then -1 else k + 1
  }

  /** The part of `s` before the first `mark`, or all of `s` if there is
      none. */
  function GetLeftOfMark(s: string, mark: char): (r: string)
    ensures r <= s
    ensures mark !in r
    ensures mark in s ==> |r| < |s| && s[|r|] == mark
    ensures mark !in s ==> r == s
  {
    var index := IndexOfChar(s, mark);
    if index < 0 then s else s[..index]
  }

  // ---------------------------------------------------------------------
  // ExtractNumbers
  // ---------------------------------------------------------------------

  /** All decimal digits of `s`, in order. */
  function Digits(s: string): string
    decreases |s|
  {
    if |s| == 0 then ""
    else Digits(s[..|s| - 1]) + (if IsDigit(s[|s| - 1]) then [s[|s| - 1]] else "")
  }

  /** The run of decimal digits that `s` starts with. */
  function LeadingDigits(s: string): string
    decreases |s|
  {
    if |s| == 0 || !IsDigit(s[0]) then "" else [s[0]] + LeadingDigits(s[1..])
  }

  /** Keeping the digits of a concatenation keeps the digits of each part. */
  lemma {:induction false} DigitsOfConcat(a: string, b: string)
    ensures Digits(a + b) == Digits(a) + Digits(b)
    decreases |b|
  {
    if |b| == 0 {
      assert a + b == a;
    } else {
      var b' := b[..|b| - 1];
      assert (a + b)[..|a + b| - 1] == a + b';
      DigitsOfConcat(a, b');
    }
  }

  /** The digits kept are exactly the digit characters of `s`: every kept
      character is a digit, a string of digits is kept whole and a string
      without digits gives "". */
  lemma {:induction false} DigitsAreTheDigitCharacters(s: string)
    ensures forall i :: 0 <= i < |Digits(s)| ==> IsDigit(Digits(s)[i])
    ensures (forall i :: 0 <= i < |s| ==> IsDigit(s[i])) ==> Digits(s) == s
    ensures (forall i :: 0 <= i < |s| ==> !IsDigit(s[i])) ==> Digits(s) == ""
    decreases |s|
  {
    if |s| > 0 {
      var front := s[..|s| - 1];
      DigitsAreTheDigitCharacters(front);
      assert forall i :: 0 <= i < |front| ==> front[i] == s[i];
      assert s == front + [s[|s| - 1]];
    }
  }

  /** `LeadingDigits(s)` is the longest prefix of `s` made of digits. */
  lemma {:induction false} LeadingDigitsIsLongestDigitPrefix(s: string, n: nat)
    requires n <= |s|
    ensures (forall i :: 0 <= i < n ==> IsDigit(s[i])) && (n == |s| || !IsDigit(s[n]))
        <==> LeadingDigits(s) == s[..n]
    decreases n
  {
    if n == 0 {
      if |s| > 0 && IsDigit(s[0]) {
        assert LeadingDigits(s) == [s[0]] + LeadingDigits(s[1..]);
      }
    } else if !IsDigit(s[0]) {
      assert LeadingDigits(s) == "";
      assert s[..n][0] == s[0];
    } else {
      var tail := s[1..];
      LeadingDigitsIsLongestDigitPrefix(tail, n - 1);
      assert LeadingDigits(s) == [s[0]] + LeadingDigits(tail);
      assert s[..n] == [s[0]] + tail[..n - 1];
      assert forall i :: 1 <= i < n ==> s[i] == tail[i - 1];
      assert n < |s| ==> s[n] == tail[n - 1];
      assert LeadingDigits(s) == s[..n] <==> LeadingDigits(tail) == tail[..n - 1] by {
        if LeadingDigits(s) == s[..n] {
          assert LeadingDigits(tail) == LeadingDigits(s)[1..] == s[..n][1..] == tail[..n - 1];
        }
      }
    }
  }

  /** With `completeToEnd` all digits of `s`; otherwise the digits up to the
      first non-digit. A blank string gives "". */
  method ExtractNumbers(s: string, completeToEnd: bool) returns (result: string)
    ensures result == if completeToEnd then Digits(s) else LeadingDigits(s)
  {
    result := "";
    if !IsWhiteSpaceOnly(s) {
      var i := 0;
      while i < |s|
        invariant 0 <= i <= |s|
        invariant result == Digits(s[..i])
        invariant !completeToEnd ==> result == s[..i] && forall j :: 0 <= j < i ==> IsDigit(s[j])
      {
        assert s[..i + 1][..i] == s[..i];
        if IsDigit(s[i]) {
          result := result + [s[i]];
        } else if !completeToEnd {
          LeadingDigitsIsLongestDigitPrefix(s, i);
          return;
        }
        i := i + 1;
      }
      assert s[..i] == s;
      if !completeToEnd {
        LeadingDigitsIsLongestDigitPrefix(s, i);
      }
    } else {
      DigitsAreTheDigitCharacters(s);
      LeadingDigitsIsLongestDigitPrefix(s, 0);
    }
  }

  // ---------------------------------------------------------------------
  // CapitalizeCase, WrapInSingleQuotationMarks
  // ---------------------------------------------------------------------

  /** The first character upper-cased and the rest lower-cased; an empty
      string fails when its first character is indexed. */
  function CapitalizeCase(s: string): (r: Result<string>)
    ensures r.Err? <==> |s| == 0
    ensures r.Err? ==> r.error == IndexOutOfRange
    ensures r.Ok? ==> |r.value| == |s| && r.value[0] == ToUpperChar(s[0])
    ensures r.Ok? ==> forall i :: 1 <= i < |s| ==> r.value[i] == ToLowerChar(s[i])
  {
    if |s| == 1 then Ok(ToUpper(s))
    else if |s| == 0 then Err(IndexOutOfRange)
    else Ok([ToUpperChar(s[0])] + ToLower(s[1..]))
  }

  /** `s` between two single quotation marks. */
  function WrapInSingleQuotationMarks(s: string): (r: string)
    ensures |r| == |s| + 2
    ensures r[0] == '\'' && r[|r| - 1] == '\''
    ensures r[1..|r| - 1] == s
  {
    "'" + s + "'"
  }

  // ---------------------------------------------------------------------
  // SplitToList, SplitTrimToList, SemicolonSeparetedToList
  // ---------------------------------------------------------------------

  /** `String.Split(char)`: the pieces between occurrences of `separator`,
      empty pieces included. */
  function SplitOn(s: string, separator: char): (pieces: seq<string>)
    decreases |s|
    ensures |pieces| >= 1
  {
    var k := IndexOfChar(s, separator);
    if k == -1 then [s] else [s[..k]] + SplitOn(s[k + 1..], separator)
  }

  /** Splitting at the first separator: the piece before it, then the
      pieces of what follows it. */
  lemma SplitOnStep(s: string, separator: char)
    requires separator in s
    ensures var k := IndexOfChar(s, separator);
      s == s[..k] + [separator] + s[k + 1..] &&
      separator !in s[..k] &&
      SplitOn(s, separator) == [s[..k]] + SplitOn(s[k + 1..], separator)
  {
    var k := IndexOfChar(s, separator);
    assert s == s[..k] + [separator] + s[k + 1..];
  }

  /** Splitting gives one piece more than there are separators. */
  lemma {:induction false} SplitOnCount(s: string, separator: char)
    ensures |SplitOn(s, separator)| == multiset(s)[separator] + 1
    decreases |s|
  {
    if separator !in s {
      assert multiset(s)[separator] == 0;
    } else {
      SplitOnStep(s, separator);
      var k := IndexOfChar(s, separator);
      var head, rest := s[..k], s[k + 1..];
      SplitOnCount(rest, separator);
      calc {
        multiset(s)[separator];
        { assert s == head + [separator] + rest; }
        multiset(head)[separator] + multiset([separator])[separator] + multiset(rest)[separator];
        { assert multiset(head)[separator] == 0; }
        1 + multiset(rest)[separator];
      }
    }
  }

  /** No piece holds the separator. */
  lemma {:induction false} SplitOnPiecesAreFree(s: string, separator: char)
    ensures forall p :: p in SplitOn(s, separator) ==> separator !in p
    decreases |s|
  {
    if separator in s {
      SplitOnStep(s, separator);
      var k := IndexOfChar(s, separator);
      SplitOnPiecesAreFree(s[k + 1..], separator);
    }
  }

  /** Joining the pieces with the separator gives back the input. */
  lemma {:induction false} SplitOnJoinRoundTrip(s: string, separator: char)
    ensures EnumerableExtensions.Joined(SplitOn(s, separator), [separator]) == s
    decreases |s|
  {
    if separator in s {
      SplitOnStep(s, separator);
      var k := IndexOfChar(s, separator);
      var head, rest := s[..k], s[k + 1..];
      SplitOnJoinRoundTrip(rest, separator);
      EnumerableExtensions.JoinedCons(head, SplitOn(rest, separator), [separator]);
    } else {
      assert SplitOn(s, separator) == [s];
    }
  }

  /** The number of white-space characters `s` starts with. */
  function LeadingWhiteSpace(s: string): (n: nat)
    decreases |s|
    ensures n <= |s|
    ensures forall i :: 0 <= i < n ==> IsWhiteSpace(s[i])
    ensures n < |s| ==> !IsWhiteSpace(s[n])
  {
    if |s| == 0 || !IsWhiteSpace(s[0]) then 0 else 1 + LeadingWhiteSpace(s[1..])
  }

  /** The number of white-space characters `s` ends with. */
  function TrailingWhiteSpace(s: string): (n: nat)
    decreases |s|
    ensures n <= |s|
    ensures forall i :: |s| - n <= i < |s| ==> IsWhiteSpace(s[i])
    ensures n < |s| ==> !IsWhiteSpace(s[|s| - n - 1])
  {
    if |s| == 0 || !IsWhiteSpace(s[|s| - 1]) then 0 else 1 + TrailingWhiteSpace(s[..|s| - 1])
  }

  /** `String.Trim()`: `s` without its leading and trailing white space. */
  function Trim(s: string): (r: string)
    ensures |r| <= |s|
    ensures |r| > 0 ==> !IsWhiteSpace(r[0]) && !IsWhiteSpace(r[|r| - 1])
    ensures IsWhiteSpaceOnly(s) ==> r == ""
  {
    var start := LeadingWhiteSpace(s);
    var rest := s[start..];
    rest[..|rest| - TrailingWhiteSpace(rest)]
  }

  /** Splits `s` on `separator`, trimming every piece when
      `trimSubStrings` is set; the number of pieces does not change. */
  method SplitToList(s: string, separator: char, trimSubStrings: bool) returns (list: seq<string>)
    ensures |list| == |SplitOn(s, separator)|
    ensures forall i :: 0 <= i < |list| ==>
      list[i] == if trimSubStrings then Trim(SplitOn(s, separator)[i]) else SplitOn(s, separator)[i]
  {
    var pieces := SplitOn(s, separator);
    var splitResult := new string[|pieces|](i requires 0 <= i < |pieces| => pieces[i]);
    if trimSubStrings {
      for i := 0 to splitResult.Length
        invariant forall j :: 0 <= j < i ==> splitResult[j] == Trim(pieces[j])
        invariant forall j :: i <= j < splitResult.Length ==> splitResult[j] == pieces[j]
      {
        splitResult[i] := Trim(splitResult[i]);
      }
    }
    list := splitResult[..];
  }

  /** `SplitToList(separator, true)`. */
  method SplitTrimToList(s: string, separator: char) returns (list: seq<string>)
    ensures |list| == |SplitOn(s, separator)| == multiset(s)[separator] + 1
    ensures forall i :: 0 <= i < |list| ==> list[i] == Trim(SplitOn(s, separator)[i])
  {
    list := SplitToList(s, separator, true);
    SplitOnCount(s, separator);
  }

  /** `SplitToList(';', false)`: the pieces between semicolons, which joined
      with ";" give back `s`. */
  method SemicolonSeparetedToList(s: string) returns (list: seq<string>)
    ensures |list| == multiset(s)[';'] + 1
    ensures forall p :: p in list ==> ';' !in p
    ensures EnumerableExtensions.Joined(list, ";") == s
  {
    list := SplitToList(s, ';', false);
    assert list == SplitOn(s, ';');
    SplitOnCount(s, ';');
    SplitOnPiecesAreFree(s, ';');
    SplitOnJoinRoundTrip(s, ';');
  }

  // ---------------------------------------------------------------------
  // HexToBytes
  // ---------------------------------------------------------------------

  predicate IsHexDigit(c: char) {
    '0' <= c <= '9' || 'a' <= c <= 'f' || 'A' <= c <= 'F'
  }

  /** The value of a hexadecimal digit, in either case. */
  function HexValue(c: char): (v: nat)
    requires IsHexDigit(c)
    ensures v < 16
  {
    if '0' <= c <= '9' then c as int - '0' as int
    else if 'a' <= c <= 'f' then c as int - 'a' as int + 10
    else c as int - 'A' as int + 10
  }

  /** `Convert.ToByte(hi + lo, 16)` for two hexadecimal digits. */
  function PairValue(hi: char, lo: char): byte
    requires IsHexDigit(hi) && IsHexDigit(lo)
  {
    (16 * HexValue(hi) + HexValue(lo)) as byte
  }

  /** `s` holds an even number of hexadecimal digits. */
  predicate IsHexString(s: string) {
    |s| % 2 == 0 && forall i :: 0 <= i < |s| ==> IsHexDigit(s[i])
  }

  /** The bytes spelled by `s`, two hexadecimal digits per byte, read from
      the left: the first pair that is not two hexadecimal digits is a
      format error, and a single character left at the end is out of range
      for `Substring(i, 2)`. */
  function DecodeHex(s: string): Result<seq<byte>>
    decreases |s|
  {
    if |s| == 0 then Ok([])
    else if |s| == 1 then Err(ArgumentOutOfRange("length"))
    else if !IsHexDigit(s[0]) || !IsHexDigit(s[1]) then Err(Format)
    else Prepend([PairValue(s[0], s[1])], DecodeHex(s[2..]))
  }

  /** Puts `prefix` in front of a successful decoding. */
  function Prepend(prefix: seq<byte>, r: Result<seq<byte>>): Result<seq<byte>> {
    if r.Ok? then Ok(prefix + r.value) else r
  }

  /** Decoding succeeds exactly on strings of an even number of hexadecimal
      digits, in either case; it then gives `|s| / 2` bytes, byte `j` being
      the value of digits `2j` and `2j + 1`. An odd number of hexadecimal
      digits fails on the last, lone character. */
  lemma {:induction false} DecodeHexMeaning(s: string)
    ensures DecodeHex(s).Ok? <==> IsHexString(s)
    ensures DecodeHex(s).Ok? ==> |DecodeHex(s).value| == |s| / 2
    ensures DecodeHex(s).Ok? ==>
      forall j :: 0 <= j < |s| / 2 ==> DecodeHex(s).value[j] == PairValue(s[2 * j], s[2 * j + 1])
    ensures |s| % 2 == 1 && (forall i :: 0 <= i < |s| ==> IsHexDigit(s[i])) ==>
      DecodeHex(s) == Err(ArgumentOutOfRange("length"))
    decreases |s|
  {
    if |s| >= 2 {
      var tail := s[2..];
      DecodeHexMeaning(tail);
      assert forall j :: 0 <= j < |tail| ==> tail[j] == s[j + 2];
      if IsHexDigit(s[0]) && IsHexDigit(s[1]) && DecodeHex(tail).Ok? {
        var r := DecodeHex(s).value;
        assert forall j :: 1 <= j < |s| / 2 ==> r[j] == DecodeHex(tail).value[j - 1];
      }
    }
  }

  /** Decoding from position `i` on: a lone last character is out of range,
      a pair that is not two hexadecimal digits is a format error, and a
      good pair is decoded in front of the rest. */
  lemma DecodeHexFrom(s: string, i: nat)
    requires i < |s|
    ensures i + 2 > |s| ==> DecodeHex(s[i..]) == Err(ArgumentOutOfRange("length"))
    ensures i + 2 <= |s| && !(IsHexDigit(s[i]) && IsHexDigit(s[i + 1])) ==> DecodeHex(s[i..]) == Err(Format)
    ensures i + 2 <= |s| && IsHexDigit(s[i]) && IsHexDigit(s[i + 1]) ==>
      DecodeHex(s[i..]) == Prepend([PairValue(s[i], s[i + 1])], DecodeHex(s[i + 2..]))
  {
    var rest := s[i..];
    if i + 2 <= |s| {
      assert rest[0] == s[i] && rest[1] == s[i + 1];
      assert rest[2..] == s[i + 2..];
    }
  }

  /** Prepending in two steps is prepending the concatenation. */
  lemma PrependTwice(done: seq<byte>, b: byte, r: Result<seq<byte>>)
    ensures Prepend(done, Prepend([b], r)) == Prepend(done + [b], r)
  {
    if r.Ok? {
      assert done + ([b] + r.value) == (done + [b]) + r.value;
    }
  }

  /** Fills a byte array two hexadecimal digits at a time. */
  method HexToBytes(s: string) returns (r: Result<seq<byte>>)
    ensures r == DecodeHex(s)
  {
    var strLength := |s|;
    var bytes := new byte[strLength / 2];
    var i := 0;
    assert s[0..] == s && bytes[..0] == [];
    assert DecodeHex(s).Ok? ==> [] + DecodeHex(s).value == DecodeHex(s).value;
    while i < strLength
      invariant 0 <= i && i % 2 == 0
      invariant i <= strLength
      invariant DecodeHex(s) == Prepend(bytes[..i / 2], DecodeHex(s[i..]))
    {
      DecodeHexFrom(s, i);
      if i + 2 > strLength {
        return Err(ArgumentOutOfRange("length"));
      }
      if !IsHexDigit(s[i]) || !IsHexDigit(s[i + 1]) {
        return Err(Format);
      }
      var b := PairValue(s[i], s[i + 1]);
      ghost var done := bytes[..i / 2];
      bytes[i / 2] := b;
      assert bytes[..i / 2 + 1] == done + [b];
      PrependTwice(done, b, DecodeHex(s[i + 2..]));
      i := i + 2;
    }
    assert s[i..] == "" && DecodeHex(s[i..]) == Ok([]);
    assert bytes[..] == bytes[..i / 2] + [];
    r := Ok(bytes[..]);
  }
}
