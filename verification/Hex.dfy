/** Hexadecimal text (RFC 4648, section 8): `hex::encode` and `hex::decode`. */
module Hex {
  import opened Bytes

  type nibble = x: int | 0 <= x < 16

  /** The encoder writes lower-case digits. */
  function HexDigit(x: nibble): char {
    if x < 10 then '0' + x as char else 'a' + (x - 10) as char
  }

  /** The decoder reads both cases. */
  function HexValue(c: char): Option<nibble> {
    if '0' <= c <= '9' then Some((c - '0') as int)
    else if 'a' <= c <= 'f' then Some((c - 'a') as int + 10)
    else if 'A' <= c <= 'F' then Some((c - 'A') as int + 10)
    else None
  }

  predicate IsHexText(text: string) {
    |text| % 2 == 0 && forall i :: 0 <= i < |text| ==> HexValue(text[i]).Some?
  }

  /** Two digits a byte, high nibble first. */
  function HexText(bin: seq<byte>): (text: string)
    ensures |text| == 2 * |bin|
  {
    seq(2 * |bin|, i requires 0 <= i < 2 * |bin| => HexDigit(NibbleAt(bin, i)))
  }

  function NibbleAt(bin: seq<byte>, i: nat): nibble
    requires i < 2 * |bin|
  {
    if i % 2 == 0 then bin[i / 2] / 16 else bin[i / 2] % 16
  }

  function HexBytes(text: string): (bin: seq<byte>)
    requires IsHexText(text)
    ensures 2 * |bin| == |text|
  {
    seq(|text| / 2, k requires 0 <= k < |text| / 2 => 16 * HexValue(text[2 * k]).value + HexValue(text[2 * k + 1]).value)
  }

  function Lower(text: string): (r: string)
    ensures |r| == |text|
  {
    seq(|text|, i requires 0 <= i < |text| => if 'A' <= text[i] <= 'F' then text[i] - 'A' + 'a' else text[i])
  }

  function EncodedLen(len: nat): Option<nat> {
    match CheckedMul(len, 2)
    case None => None
    case Some(n) => CheckedAdd(n, 1)
  }

  function DecodedLen(len: nat): Result<nat> {
    if len % 2 != 0 then Err else Ok(len / 2)
  }

  /** A slice is never long enough for the length computation to overflow. */
  lemma EncodeNeverPanics(len: nat)
    requires len <= ISIZE_MAX
    ensures EncodedLen(len) == Some(2 * len + 1)
  {
  }

  /** Fills a buffer with digits and a trailing nul, and drops the nul. The error is the panic when the
      buffer size overflows. */
  method Encode(bin: seq<byte>) returns (r: Result<string>)
    ensures r == if 2 * |bin| + 1 <= USIZE_MAX then Ok(HexText(bin)) else Err
  {
    var len := EncodedLen(|bin|);
    if len.None? {
      return Err;
    }
    var hex := new char[len.value](_ => '\0');
    for i := 0 to |bin|
      invariant forall k :: 0 <= k < 2 * i ==> hex[k] == HexText(bin)[k]
    {
      assert NibbleAt(bin, 2 * i) == bin[i] / 16 && NibbleAt(bin, 2 * i + 1) == bin[i] % 16;
      hex[2 * i] := HexDigit(bin[i] / 16);
      hex[2 * i + 1] := HexDigit(bin[i] % 16);
    }
    hex[2 * |bin|] := '\0';
    assert hex[..hex.Length - 1] == HexText(bin);
    return Ok(hex[..hex.Length - 1]);
  }

  /** Succeeds exactly on even-length text of hexadecimal digits. */
  method Decode(text: string) returns (r: Result<seq<byte>>)
    ensures r == if IsHexText(text) then Ok(HexBytes(text)) else Err
  {
    var len := DecodedLen(|text|);
    if len.Err? {
      return Err;
    }
    var bin := new byte[len.value](_ => 0);
    var pos, binPos, second := 0, 0, false;
    var acc: nibble := 0;
    while pos < |text|
      invariant pos <= |text| && pos == 2 * binPos + (if second then 1 else 0)
      invariant forall i :: 0 <= i < pos ==> HexValue(text[i]).Some?
      invariant second ==> acc == HexValue(text[pos - 1]).value
      invariant forall k :: 0 <= k < binPos ==>
        bin[k] == 16 * HexValue(text[2 * k]).value + HexValue(text[2 * k + 1]).value
    {
      var value := HexValue(text[pos]);
      if value.None? {
        break;
      }
      if !second {
        acc := value.value;
      } else {
        bin[binPos] := 16 * (acc as int) + value.value;
        binPos := binPos + 1;
      }
      second := !second;
      pos := pos + 1;
    }
    if second || pos != |text| {
      return Err;
    }
    assert bin[..binPos] == HexBytes(text);
    return Ok(bin[..binPos]);
  }

  /** The sixteen digits; the decoder also takes the six letters in upper case. */
  lemma Digits(x: nibble, c: char)
    ensures HexDigit(x) == "0123456789abcdef"[x] && HexValue("0123456789abcdef"[x]) == Some(x)
    ensures HexValue("0123456789ABCDEF"[x]) == Some(x)
    ensures HexValue(c).Some? ==> c == "0123456789abcdef"[HexValue(c).value] || c == "0123456789ABCDEF"[HexValue(c).value]
  {
  }

  /** Byte `k` is written as the digits of its high and its low half. */
  lemma TextOfByte(bin: seq<byte>, k: nat)
    requires k < |bin|
    ensures HexText(bin)[2 * k] == "0123456789abcdef"[bin[k] / 16]
    ensures HexText(bin)[2 * k + 1] == "0123456789abcdef"[bin[k] % 16]
  {
    Digits(bin[k] / 16, '0');
    Digits(bin[k] % 16, '0');
    assert (2 * k + 1) / 2 == k;
  }

  lemma DigitRoundTrip(x: nibble, c: char)
    ensures HexValue(HexDigit(x)) == Some(x)
    ensures HexValue(c).Some? ==> HexDigit(HexValue(c).value) == if 'A' <= c <= 'F' then c - 'A' + 'a' else c
  {
  }

  lemma BothNibbles(bin: seq<byte>, k: nat)
    requires k < |bin|
    ensures 16 * (NibbleAt(bin, 2 * k) as int) + NibbleAt(bin, 2 * k + 1) == bin[k]
  {
    assert (2 * k) % 2 == 0 && (2 * k + 1) % 2 == 1;
  }

  /** Decoding undoes encoding. */
  lemma DecodeEncode(bin: seq<byte>)
    ensures IsHexText(HexText(bin)) && HexBytes(HexText(bin)) == bin
  {
    var text := HexText(bin);
    forall i | 0 <= i < |text| ensures HexValue(text[i]).Some? {
      DigitRoundTrip(NibbleAt(bin, i), 'a');
    }
    forall k | 0 <= k < |bin| ensures HexBytes(text)[k] == bin[k] {
      DigitRoundTrip(NibbleAt(bin, 2 * k), 'a');
      DigitRoundTrip(NibbleAt(bin, 2 * k + 1), 'a');
      BothNibbles(bin, k);
    }
  }

  /** Encoding what was decoded gives the text back, in lower case. */
  lemma EncodeDecode(text: string)
    requires IsHexText(text)
    ensures HexText(HexBytes(text)) == Lower(text)
  {
    var bin := HexBytes(text);
    forall i | 0 <= i < |text| ensures HexText(bin)[i] == Lower(text)[i] {
      DigitRoundTrip(0, text[i]);
      var k := i / 2;
      assert bin[k] / 16 == HexValue(text[2 * k]).value && bin[k] % 16 == HexValue(text[2 * k + 1]).value;
    }
  }
}
