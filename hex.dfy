/** `HexHelper`: bytes to lower-case hexadecimal text and back. */
module HexHelper {
  import opened Common
  import StringExtensions

  /** The lower-case hexadecimal digit for a value below 16. */
  function HexDigit(n: nat): char
    requires n < 16
  {
    "0123456789abcdef"[n]
  }

  /** `{0:x2}`: two lower-case hexadecimal digits, high nibble first. */
  function ByteToHex(b: byte): string {
    [HexDigit(b as int / 16), HexDigit(b as int % 16)]
  }

  /** The hexadecimal text of `bytes`, byte by byte in order. */
  function Hex(bytes: seq<byte>): string
    decreases |bytes|
  {
    if |bytes| == 0 then "" else Hex(bytes[..|bytes| - 1]) + ByteToHex(bytes[|bytes| - 1])
  }

  /** Appends the two digits of every byte to a string builder. */
  method ConvertByteToHex(bytes: seq<byte>) returns (hex: string)
    ensures hex == Hex(bytes)
  {
    var sb := "";
    for i := 0 to |bytes|
      invariant sb == Hex(bytes[..i])
    {
      assert bytes[..i + 1][..i] == bytes[..i];
      sb := sb + ByteToHex(bytes[i]);
    }
    assert bytes[..|bytes|] == bytes;
    hex := sb;
  }

  /** `ConvertByteToHex` that answers `null` for a `null` array. */
  method SafeConvertByteToHex(bytes: Option<seq<byte>>) returns (hex: Option<string>)
    ensures hex.None? <==> bytes.None?
    ensures bytes.Some? ==> hex == Some(Hex(bytes.value)) && |hex.value| == 2 * |bytes.value|
  {
    if bytes.None? {
      return None;
    }
    var sb := "";
    for i := 0 to |bytes.value|
      invariant sb == Hex(bytes.value[..i])
    {
      assert bytes.value[..i + 1][..i] == bytes.value[..i];
      sb := sb + ByteToHex(bytes.value[i]);
    }
    assert bytes.value[..|bytes.value|] == bytes.value;
    HexLayout(bytes.value);
    hex := Some(sb);
  }

  /** Delegates to `StringExtensions.HexToBytes`. */
  method ConvertHexToBytes(value: string) returns (bytes: Result<seq<byte>>)
    ensures bytes == StringExtensions.DecodeHex(value)
  {
    bytes := StringExtensions.HexToBytes(value);
  }

  /** Every byte becomes two lower-case hexadecimal digits, high nibble
      first, in byte order. */
  lemma {:induction false} HexLayout(bytes: seq<byte>)
    ensures |Hex(bytes)| == 2 * |bytes|
    ensures forall i :: 0 <= i < |bytes| ==>
      Hex(bytes)[2 * i] == HexDigit(bytes[i] as int / 16) &&
      Hex(bytes)[2 * i + 1] == HexDigit(bytes[i] as int % 16)
    decreases |bytes|
  {
    if |bytes| > 0 {
      HexLayout(bytes[..|bytes| - 1]);
    }
  }

  /** The text uses only the digits 0-9 and a-f. */
  lemma HexIsLowerCase(bytes: seq<byte>)
    ensures forall i :: 0 <= i < |Hex(bytes)| ==>
      '0' <= Hex(bytes)[i] <= '9' || 'a' <= Hex(bytes)[i] <= 'f'
  {
    HexLayout(bytes);
    forall i | 0 <= i < |Hex(bytes)|
      ensures '0' <= Hex(bytes)[i] <= '9' || 'a' <= Hex(bytes)[i] <= 'f'
    {
      var j := i / 2;
      assert i == 2 * j || i == 2 * j + 1;
    }
  }

  lemma HexValueOfDigit(n: nat)
    requires n < 16
    ensures StringExtensions.IsHexDigit(HexDigit(n))
    ensures StringExtensions.HexValue(HexDigit(n)) == n
  {
  }

  lemma DigitOfHexValue(c: char)
    requires StringExtensions.IsHexDigit(c)
    ensures HexDigit(StringExtensions.HexValue(c)) == StringExtensions.ToLowerChar(c)
  {
  }

  lemma PairValueNibbles(hi: char, lo: char)
    requires StringExtensions.IsHexDigit(hi) && StringExtensions.IsHexDigit(lo)
    ensures StringExtensions.PairValue(hi, lo) as int / 16 == StringExtensions.HexValue(hi)
    ensures StringExtensions.PairValue(hi, lo) as int % 16 == StringExtensions.HexValue(lo)
  {
  }

  /** The two digits of a byte read back as that byte. */
  lemma ByteDigitsValue(b: byte)
    ensures StringExtensions.IsHexDigit(HexDigit(b as int / 16))
    ensures StringExtensions.IsHexDigit(HexDigit(b as int % 16))
    ensures StringExtensions.PairValue(HexDigit(b as int / 16), HexDigit(b as int % 16)) == b
  {
    var n := b as int;
    HexValueOfDigit(n / 16);
    HexValueOfDigit(n % 16);
    assert 16 * (n / 16) + n % 16 == n;
  }

  /** Decoding the text of any byte array gives the array back. */
  lemma RoundTrip(bytes: seq<byte>)
    ensures StringExtensions.DecodeHex(Hex(bytes)) == Ok(bytes)
  {
    var h := Hex(bytes);
    HexLayout(bytes);
    HexIsLowerCase(bytes);
    assert StringExtensions.IsHexString(h);
    StringExtensions.DecodeHexMeaning(h);
    var decoded := StringExtensions.DecodeHex(h).value;
    assert |decoded| == |bytes|;
    forall j | 0 <= j < |bytes|
      ensures decoded[j] == bytes[j]
    {
      ByteDigitsValue(bytes[j]);
      assert decoded[j] == StringExtensions.PairValue(h[2 * j], h[2 * j + 1]);
    }
    assert decoded == bytes;
  }

  /** Encoding what a hexadecimal string decodes to gives the string back in
      lower case. */
  lemma DecodeThenEncode(s: string)
    requires StringExtensions.IsHexString(s)
    ensures StringExtensions.DecodeHex(s).Ok?
    ensures Hex(StringExtensions.DecodeHex(s).value) == StringExtensions.ToLower(s)
  {
    StringExtensions.DecodeHexMeaning(s);
    var bytes := StringExtensions.DecodeHex(s).value;
    HexLayout(bytes);
    var h := Hex(bytes);
    forall i | 0 <= i < |s|
      ensures h[i] == StringExtensions.ToLowerChar(s[i])
    {
      var j := i / 2;
      assert i == 2 * j || i == 2 * j + 1;
      PairValueNibbles(s[2 * j], s[2 * j + 1]);
      DigitOfHexValue(s[2 * j]);
      DigitOfHexValue(s[2 * j + 1]);
    }
  }
}
