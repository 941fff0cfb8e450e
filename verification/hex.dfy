/**
 * The hexadecimal codec that carries the RSA signature through the
 * document's `Signature` metadata field: `Sign.bytesToHex` writes it and
 * `Verify.hexToBytes` reads it back.
 */
module Hex {
  import opened Bytes
  import opened Wrappers

  /** `Character.digit(c, 16)` on ASCII: the digit's value, or -1 for a non-hex character. */
  function Digit(c: char): (d: int)
    ensures -1 <= d < 16
    ensures d == -1 <==> !IsHexChar(c)
  {
    if '0' <= c <= '9' then c as int - '0' as int
    else if 'a' <= c <= 'f' then c as int - 'a' as int + 10
    else if 'A' <= c <= 'F' then c as int - 'A' as int + 10
    else -1
  }

  predicate IsHexChar(c: char)
  {
    '0' <= c <= '9' || 'a' <= c <= 'f' || 'A' <= c <= 'F'
  }

  /** The lower-case digit `Integer.toHexString` writes for a nibble. */
  function NibbleChar(d: int): (c: char)
    requires 0 <= d < 16
    ensures Digit(c) == d
    ensures '0' <= c <= '9' || 'a' <= c <= 'f'
  {
    if d < 10 then ('0' as int + d) as char else ('a' as int + d - 10) as char
  }

  /** `Integer.toHexString(0xff & b)`: lower case, without leading zeros. */
  function ToHexString(b: Byte): (h: string)
    ensures |h| == if b < 16 then 1 else 2
    ensures forall i :: 0 <= i < |h| ==> '0' <= h[i] <= '9' || 'a' <= h[i] <= 'f'
    ensures |h| == 2 ==> h[0] != '0'
    ensures (if |h| == 1 then Digit(h[0]) else 16 * Digit(h[0]) + Digit(h[1])) == b
  {
    if b < 16 then [NibbleChar(b)] else [NibbleChar(b / 16), NibbleChar(b % 16)]
  }

  /** The reference encoding: two lower-case digits per byte, high nibble first, in input order. */
  function Encode(bytes: seq<Byte>): string
  {
    if bytes == [] then ""
    else
      var last := bytes[|bytes| - 1];
      Encode(bytes[..|bytes| - 1]) + [NibbleChar(last / 16), NibbleChar(last % 16)]
  }

  lemma {:induction false} EncodeShape(bytes: seq<Byte>)
    ensures |Encode(bytes)| == 2 * |bytes|
    ensures forall k :: 0 <= k < |bytes| ==>
              Encode(bytes)[2 * k] == NibbleChar(bytes[k] / 16) &&
              Encode(bytes)[2 * k + 1] == NibbleChar(bytes[k] % 16)
    ensures forall k :: 0 <= k < |bytes| && bytes[k] < 16 ==> Encode(bytes)[2 * k] == '0'
    ensures forall i :: 0 <= i < |Encode(bytes)| ==>
              '0' <= Encode(bytes)[i] <= '9' || 'a' <= Encode(bytes)[i] <= 'f'
  {
    if bytes != [] {
      var init := bytes[..|bytes| - 1];
      EncodeShape(init);
      assert forall k :: 0 <= k < |init| ==> init[k] == bytes[k];
    }
  }

  /** `Sign.bytesToHex`: appends `toHexString` of each byte, padded with a `0` when it has one digit. */
  method BytesToHex(bytes: seq<Byte>) returns (hex: string)
    ensures hex == Encode(bytes)
  {
    hex := "";
    for i := 0 to |bytes|
      invariant hex == Encode(bytes[..i])
    {
      var h := ToHexString(bytes[i]);
      if |h| == 1 {
        hex := hex + ['0'];
      }
      hex := hex + h;
      assert bytes[..i + 1][..i] == bytes[..i];
    }
    assert bytes[..|bytes|] == bytes;
  }

  /** `(byte) ((Character.digit(hi, 16) << 4) + Character.digit(lo, 16))`. */
  function PairByte(hi: char, lo: char): (b: Byte)
    ensures IsHexChar(hi) && IsHexChar(lo) ==>
      b == 16 * Digit(hi) + Digit(lo) && b / 16 == Digit(hi) && b % 16 == Digit(lo)
  {
    ToByte(Digit(hi) * 16 + Digit(lo))
  }

  /** `charAt(i + 1)` ran past the end of an odd-length string. */
  datatype HexError = IndexOutOfBounds(index: nat)

  /** The reference decoding: byte k is built from characters 2k and 2k+1; odd length is an error. */
  function Decode(hex: string): Result<seq<Byte>, HexError>
  {
    if |hex| % 2 == 1 then Err(IndexOutOfBounds(|hex|))
    else Ok(seq(|hex| / 2, k requires 0 <= k < |hex| / 2 => PairByte(hex[2 * k], hex[2 * k + 1])))
  }

  /** `Verify.hexToBytes`: fills a `byte[length / 2]`, stepping through the string two characters at a time. */
  method HexToBytes(hex: string) returns (r: Result<seq<Byte>, HexError>)
    ensures r == Decode(hex)
    ensures r.Ok? <==> |hex| % 2 == 0
    ensures r.Ok? ==> |r.value| == |hex| / 2
    ensures r.Err? ==> r.error.index == |hex|
  {
    var length := |hex|;
    var result := new Byte[length / 2];
    var i := 0;
    while i < length
      invariant 0 <= i <= length && i % 2 == 0
      invariant forall k :: 0 <= k < i / 2 ==> result[k] == PairByte(hex[2 * k], hex[2 * k + 1])
    {
      if i + 1 >= length {
        return Err(IndexOutOfBounds(i + 1));
      }
      result[i / 2] := PairByte(hex[i], hex[i + 1]);
      i := i + 2;
    }
    assert |result[..]| == |hex| / 2;
    assert forall k :: 0 <= k < |hex| / 2 ==> result[..][k] == PairByte(hex[2 * k], hex[2 * k + 1]);
    r := Ok(result[..]);
    assert r.value == Decode(hex).value;
  }

  /** Decode, one byte at a time. */
  lemma DecodeAt(hex: string)
    requires |hex| % 2 == 0
    ensures Decode(hex).Ok? && |Decode(hex).value| == |hex| / 2
    ensures forall k :: 0 <= k < |hex| / 2 ==> Decode(hex).value[k] == PairByte(hex[2 * k], hex[2 * k + 1])
  {
  }

  /** The two digits written for a byte read back as that byte. */
  lemma NibblesPairByte(b: Byte)
    ensures PairByte(NibbleChar(b / 16), NibbleChar(b % 16)) == b
  {
    assert 16 * (b / 16) + b % 16 == b;
  }

  /** Decoding what `BytesToHex` wrote gives back the signature bytes. */
  lemma EncodeDecode(bytes: seq<Byte>)
    ensures Decode(Encode(bytes)) == Ok(bytes)
  {
    EncodeShape(bytes);
    var e := Encode(bytes);
    DecodeAt(e);
    var d := Decode(e).value;
    forall k | 0 <= k < |bytes|
      ensures d[k] == bytes[k]
    {
      assert d[k] == PairByte(e[2 * k], e[2 * k + 1]);
      NibblesPairByte(bytes[k]);
    }
    assert d == bytes;
  }

  /** A string of hex digits of even length: byte k is exactly 16 * digit(h[2k]) + digit(h[2k+1]). */
  lemma DecodeHexDigits(hex: string, k: nat)
    requires |hex| % 2 == 0 && k < |hex| / 2
    requires forall i :: 0 <= i < |hex| ==> IsHexChar(hex[i])
    ensures Decode(hex).Ok? && |Decode(hex).value| == |hex| / 2
    ensures Decode(hex).value[k] == 16 * Digit(hex[2 * k]) + Digit(hex[2 * k + 1])
  {
    assert IsHexChar(hex[2 * k]) && IsHexChar(hex[2 * k + 1]);
  }

  /** Two characters that differ at most in the case of a hex letter. */
  predicate SameIgnoringCase(a: char, b: char)
  {
    a == b
    || ('a' <= a <= 'f' && b as int == a as int - 32)
    || ('A' <= a <= 'F' && b as int == a as int + 32)
  }

  /** Upper- and lower-case hex digits decode to the same bytes. */
  lemma DecodeIgnoresCase(h1: string, h2: string)
    requires |h1| == |h2|
    requires forall i :: 0 <= i < |h1| ==> SameIgnoringCase(h1[i], h2[i])
    ensures Decode(h1) == Decode(h2)
  {
    if |h1| % 2 == 0 {
      DecodeAt(h1);
      DecodeAt(h2);
      var d1, d2 := Decode(h1).value, Decode(h2).value;
      forall k | 0 <= k < |h1| / 2
        ensures d1[k] == d2[k]
      {
        assert SameIgnoringCase(h1[2 * k], h2[2 * k]);
        assert SameIgnoringCase(h1[2 * k + 1], h2[2 * k + 1]);
      }
      assert d1 == d2;
    }
  }

  /** Re-encoding a digit's value gives the digit back, up to the case of a letter. */
  lemma NibbleCharOfDigit(c: char)
    requires IsHexChar(c)
    ensures SameIgnoringCase(c, NibbleChar(Digit(c)))
  {
  }

  /** The other direction: a valid hex string decodes to bytes whose encoding is that string in lower case. */
  lemma DecodeEncode(hex: string)
    requires |hex| % 2 == 0
    requires forall i :: 0 <= i < |hex| ==> IsHexChar(hex[i])
    ensures Decode(hex).Ok?
    ensures |Encode(Decode(hex).value)| == |hex|
    ensures forall i :: 0 <= i < |hex| ==> SameIgnoringCase(hex[i], Encode(Decode(hex).value)[i])
  {
    DecodeAt(hex);
    var bytes := Decode(hex).value;
    EncodeShape(bytes);
    var e := Encode(bytes);
    forall i | 0 <= i < |hex|
      ensures SameIgnoringCase(hex[i], e[i])
    {
      var k := i / 2;
      if i % 2 == 0 {
        assert i == 2 * k;
        NibbleCharOfDigit(hex[i]);
      } else {
        assert i == 2 * k + 1;
        NibbleCharOfDigit(hex[i]);
      }
    }
  }
}
