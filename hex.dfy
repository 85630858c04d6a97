/** Base16 text (section 8 of RFC 4648) as the `hex` crate writes and reads it:
    `hex::encode` writes two lowercase digits per byte, high nibble first;
    `hex::decode` accepts either case, rejects an odd number of digits first,
    then reports the first character, left to right, that is not a digit. */
module Hex {
  import opened Bytes
  import opened Wrappers

  /** The errors of `hex::decode` that this decoder can produce. */
  datatype FromHexError =
    | OddLength
    | InvalidHexCharacter(c: char, index: nat)

  predicate IsHexChar(c: char) {
    ('0' <= c <= '9') || ('a' <= c <= 'f') || ('A' <= c <= 'F')
  }

  predicate IsLowerHexChar(c: char) {
    ('0' <= c <= '9') || ('a' <= c <= 'f')
  }

  /** Lowercase, even-length hex text: exactly the strings `hex::encode` can produce. */
  predicate IsLowerHex(s: string) {
    |s| % 2 == 0 && forall j :: 0 <= j < |s| ==> IsLowerHexChar(s[j])
  }

  /** The lowercase digit for a nibble. */
  function HexDigit(n: nat): (c: char)
    requires n < 16
    ensures IsLowerHexChar(c)
  {
    if n < 10 then ('0' as int + n) as char else ('a' as int + n - 10) as char
  }

  /** The nibble a digit stands for, in either case. */
  function DigitValue(c: char): (n: nat)
    requires IsHexChar(c)
    ensures n < 16
  {
    if '0' <= c <= '9' then c as int - '0' as int
    else if 'a' <= c <= 'f' then c as int - 'a' as int + 10
    else c as int - 'A' as int + 10
  }

  lemma DigitRoundTrip(n: nat, c: char)
    requires n < 16 && IsLowerHexChar(c)
    ensures DigitValue(HexDigit(n)) == n
    ensures HexDigit(DigitValue(c)) == c
  {
  }

  /** The byte written by the digit pair at s[p], s[p + 1]. */
  function PairValue(s: string, p: nat): (b: byte)
    requires p + 1 < |s| && IsHexChar(s[p]) && IsHexChar(s[p + 1])
  {
    16 * DigitValue(s[p]) + DigitValue(s[p + 1])
  }

  /** `hex::encode`: two digits per byte, high nibble first. */
  function Encode(bs: seq<byte>): (r: string)
    ensures |r| == 2 * |bs|
  {
    if |bs| == 0 then "" else [HexDigit(bs[0] / 16), HexDigit(bs[0] % 16)] + Encode(bs[1..])
  }

  /** Byte i is written as the digits at 2i and 2i + 1, high nibble first. */
  lemma {:induction false} EncodeDigits(bs: seq<byte>)
    ensures forall i :: 0 <= i < |bs| ==>
              Encode(bs)[2 * i] == HexDigit(bs[i] / 16) && Encode(bs)[2 * i + 1] == HexDigit(bs[i] % 16)
  {
    if |bs| > 0 {
      EncodeDigits(bs[1..]);
      var r, rest := Encode(bs), Encode(bs[1..]);
      assert forall i :: 1 <= i < |bs| ==> r[2 * i] == rest[2 * (i - 1)] && r[2 * i + 1] == rest[2 * (i - 1) + 1];
      assert forall i :: 1 <= i < |bs| ==> bs[i] == bs[1..][i - 1];
    }
  }

  /** Encoder output is lowercase hex of even length. */
  lemma EncodeIsLowerHex(bs: seq<byte>)
    ensures IsLowerHex(Encode(bs))
  {
    var r := Encode(bs);
    EncodeDigits(bs);
    forall j | 0 <= j < |r| ensures IsLowerHexChar(r[j]) {
      var i := j / 2;
      if j % 2 == 0 {
        assert r[j] == r[2 * i] == HexDigit(bs[i] / 16);
      } else {
        assert r[j] == r[2 * i + 1] == HexDigit(bs[i] % 16);
      }
    }
  }

  /** `hex::decode`. */
  function Decode(s: string): (r: Result<seq<byte>, FromHexError>)
    ensures r == Err(OddLength) <==> |s| % 2 == 1
    ensures r.Ok? <==> |s| % 2 == 0 && forall j :: 0 <= j < |s| ==> IsHexChar(s[j])
    ensures r.Ok? ==> 2 * |r.value| == |s|
    ensures r.Ok? ==> forall k :: 0 <= k < |r.value| ==> r.value[k] == PairValue(s, 2 * k)
    ensures r.Err? && r.error.InvalidHexCharacter? ==>
              var e := r.error;
              e.index < |s| && s[e.index] == e.c && !IsHexChar(e.c) &&
              forall j :: 0 <= j < e.index ==> IsHexChar(s[j])
  {
    if |s| % 2 != 0 then Err(OddLength) else DecodeFrom(s, 0)
  }

  /** Decodes the pairs of s from position i on. */
  function DecodeFrom(s: string, i: nat): (r: Result<seq<byte>, FromHexError>)
    requires |s| % 2 == 0 && i % 2 == 0 && i <= |s|
    ensures r.Ok? <==> forall j :: i <= j < |s| ==> IsHexChar(s[j])
    ensures r.Ok? ==> 2 * |r.value| == |s| - i
    ensures r.Ok? ==> forall k :: 0 <= k < |r.value| ==> r.value[k] == PairValue(s, i + 2 * k)
    ensures r.Err? ==>
              var e := r.error;
              e.InvalidHexCharacter? && i <= e.index < |s| && s[e.index] == e.c && !IsHexChar(e.c) &&
              forall j :: i <= j < e.index ==> IsHexChar(s[j])
    decreases |s| - i
  {
    if i == |s| then Ok([])
    else if !IsHexChar(s[i]) then Err(InvalidHexCharacter(s[i], i))
    else if !IsHexChar(s[i + 1]) then Err(InvalidHexCharacter(s[i + 1], i + 1))
    else
      match DecodeFrom(s, i + 2)
      case Err(e) => Err(e)
      case Ok(rest) =>
        var r := [PairValue(s, i)] + rest;
        assert forall k :: 1 <= k < |r| ==> r[k] == rest[k - 1] == PairValue(s, (i + 2) + 2 * (k - 1));
        Ok(r)
  }

  /** `hex::decode` inverts `hex::encode`. */
  lemma DecodeOfEncode(bs: seq<byte>)
    ensures Decode(Encode(bs)) == Ok(bs)
  {
    var s := Encode(bs);
    forall j | 0 <= j < |s| ensures IsHexChar(s[j]) {
      EncodeIsLowerHex(bs);
    }
    var r := Decode(s);
    EncodeDigits(bs);
    assert |r.value| == |bs|;
    forall k | 0 <= k < |bs| ensures r.value[k] == bs[k] {
      DigitRoundTrip(bs[k] / 16, '0');
      DigitRoundTrip(bs[k] % 16, '0');
      assert s[2 * k] == HexDigit(bs[k] / 16) && s[2 * k + 1] == HexDigit(bs[k] % 16);
      assert r.value[k] == PairValue(s, 2 * k) == 16 * (bs[k] / 16) + bs[k] % 16;
    }
    assert r.value == bs;
  }

  /** `hex::encode` inverts `hex::decode` on lowercase text, so a script string
      determines its bytes. */
  lemma EncodeOfDecode(s: string)
    requires IsLowerHex(s)
    ensures Decode(s).Ok? && Encode(Decode(s).value) == s
  {
    var bs := Decode(s).value;
    var r := Encode(bs);
    EncodeDigits(bs);
    forall j | 0 <= j < |s| ensures r[j] == s[j] {
      var k := j / 2;
      DigitRoundTrip(0, s[2 * k]);
      DigitRoundTrip(0, s[2 * k + 1]);
      assert bs[k] == PairValue(s, 2 * k);
      assert bs[k] / 16 == DigitValue(s[2 * k]);
      assert bs[k] % 16 == DigitValue(s[2 * k + 1]);
    }
  }
}
