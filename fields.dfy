/** What each reader yields, as a function of the buffer and the cursor
    position: the value read and the position the cursor moves to. */
module Fields {
  import opened Bytes
  import opened ByteCursor
  import opened Types
  import Hex
  import opened Wrappers

  /** `read_u32`: 4 bytes, little-endian. */
  function U32At(data: seq<byte>, pos: nat): (r: Parsed<u32>)
    requires pos <= |data|
    ensures r.next == pos + Min(4, |data| - pos)
    ensures r.value == LE(data[pos..r.next])
  {
    var t := Take(data, pos, 4);
    Pow256Widths();
    LEOfTake(data, pos, 4);
    Parsed(LE(t.value), t.next)
  }

  /** `read_amount`: 8 bytes, little-endian, as satoshis. */
  function AmountAt(data: seq<byte>, pos: nat): (r: Parsed<Amount>)
    requires pos <= |data|
    ensures r.next == pos + Min(8, |data| - pos)
    ensures r.value == LE(data[pos..r.next])
  {
    var t := Take(data, pos, 8);
    Pow256Widths();
    LEOfTake(data, pos, 8);
    Parsed(LE(t.value), t.next)
  }

  /** `read_txid`: 32 bytes, stored in reverse of wire order. */
  function TxidAt(data: seq<byte>, pos: nat): (r: Parsed<Txid>)
    requires pos <= |data|
    ensures r.next == pos + Min(32, |data| - pos)
  {
    var t := Take(data, pos, 32);
    Parsed(Reversed(t.value), t.next)
  }

  /** How many bytes follow a CompactSize prefix byte. */
  function ContinuationWidth(prefix: byte): (w: nat)
  {
    if prefix <= 252 then 0 else if prefix == 253 then 2 else if prefix == 254 then 4 else 8
  }

  /** `read_compact_size`: one prefix byte, then for 253, 254 and 255 a 2, 4 or
      8 byte little-endian value. No minimality check. */
  function CompactSizeAt(data: seq<byte>, pos: nat): (r: Parsed<u64>)
    requires pos <= |data|
    ensures pos <= r.next <= |data|
  {
    var prefix := Take(data, pos, 1);
    var b := prefix.value[0];
    Pow256Widths();
    if b <= 252 then
      Parsed(b, prefix.next)
    else if b == 253 then
      var t := Take(data, prefix.next, 2);
      Parsed(LE(t.value), t.next)
    else if b == 254 then
      var t := Take(data, prefix.next, 4);
      Parsed(LE(t.value), t.next)
    else
      var t := Take(data, prefix.next, 8);
      Parsed(LE(t.value), t.next)
  }

  /** `read_script`: a CompactSize length L, then L bytes, rendered as hex. */
  function ScriptAt(data: seq<byte>, pos: nat): (r: Parsed<string>)
    requires pos <= |data|
    ensures pos <= r.next <= |data|
  {
    var size := CompactSizeAt(data, pos);
    var t := Take(data, size.next, size.value);
    Parsed(Hex.Encode(t.value), t.next)
  }

  /** A prefix of 0 to 252 is the value itself and consumes one byte. */
  lemma CompactSizeSingleByte(data: seq<byte>, pos: nat)
    requires pos < |data| && data[pos] <= 252
    ensures CompactSizeAt(data, pos) == Parsed(data[pos] as u64, pos + 1)
  {
  }

  /** A prefix of 253, 254 or 255 is followed by a 2, 4 or 8 byte little-endian
      value, which is therefore below 2^16, 2^32 or 2^64. With the w bytes
      present the read consumes 1 + w bytes (3, 5 or 9); otherwise it consumes
      what is left and the value is that of the bytes that were there. */
  lemma CompactSizePrefixed(data: seq<byte>, pos: nat)
    requires pos < |data| && data[pos] >= 253
    ensures var w := ContinuationWidth(data[pos]);
            var r := CompactSizeAt(data, pos);
            w == (if data[pos] == 253 then 2 else if data[pos] == 254 then 4 else 8) &&
            r.next == pos + 1 + Min(w, |data| - pos - 1) &&
            r.value == LE(data[pos + 1..r.next]) &&
            r.value < Pow256(w)
  {
    var w := ContinuationWidth(data[pos]);
    var prefix := Take(data, pos, 1);
    assert prefix.value == [data[pos]];
    LEOfTake(data, pos + 1, w);
  }

  /** Every prefix class, when its continuation bytes are all there. */
  lemma CompactSizeComplete(data: seq<byte>, pos: nat)
    requires pos < |data| && pos + 1 + ContinuationWidth(data[pos]) <= |data|
    ensures var w := ContinuationWidth(data[pos]);
            CompactSizeAt(data, pos) ==
              Parsed(if w == 0 then data[pos] else LE(data[pos + 1..pos + 1 + w]), pos + 1 + w)
  {
    if data[pos] >= 253 {
      CompactSizePrefixed(data, pos);
    }
  }

  /** The unit tests of `read_compact_size`: one single-byte value and one
      value per prefix class. */
  lemma CompactSizeTestVectors()
    ensures CompactSizeAt([1], 0).value == 1
    ensures CompactSizeAt([253, 0, 1], 0).value == 256
    ensures CompactSizeAt([254, 0, 0, 0, 1], 0).value == 256 * 256 * 256
    ensures CompactSizeAt([255, 0, 0, 0, 0, 0, 0, 0, 1], 0).value == 256 * 256 * 256 * 256 * 256 * 256 * 256
  {
    CompactSizeHighByte(253);
    CompactSizeHighByte(254);
    CompactSizeHighByte(255);
    assert [253, 0, 1] == [253] + Zeros(1) + [1];
    assert [254, 0, 0, 0, 1] == [254] + Zeros(3) + [1];
    assert [255, 0, 0, 0, 0, 0, 0, 0, 1] == [255] + Zeros(7) + [1];
    assert Pow256(3) == 256 * 256 * 256;
    assert Pow256(7) == 256 * 256 * 256 * 256 * 256 * 256 * 256;
  }

  /** A prefix of class w followed by w - 1 zero bytes and a 1 reads as 256^(w - 1). */
  lemma CompactSizeHighByte(p: byte)
    requires p >= 253
    ensures var w := ContinuationWidth(p);
            CompactSizeAt([p] + Zeros(w - 1) + [1], 0).value == Pow256(w - 1)
  {
    var w := ContinuationWidth(p);
    var d := [p] + Zeros(w - 1) + [1];
    CompactSizeComplete(d, 0);
    assert d[1..1 + w] == Zeros(w - 1) + [1];
    LEHighByte(w);
  }

  /** The 20000-input count of the unit tests, read from the hex text `fd204e`. */
  lemma CompactSizeTestVectorHex()
    ensures Hex.Decode("fd204e") == Ok([253, 32, 78])
    ensures CompactSizeAt([253, 32, 78], 0).value == 20000
  {
    var s := "fd204e";
    assert forall j :: 0 <= j < |s| ==> Hex.IsHexChar(s[j]);
    var r := Hex.Decode(s);
    assert r.value[0] == Hex.PairValue(s, 0) == 253;
    assert r.value[1] == Hex.PairValue(s, 2) == 32;
    assert r.value[2] == Hex.PairValue(s, 4) == 78;
    assert r.value == [253, 32, 78];
    var d: seq<byte> := [253, 32, 78];
    CompactSizeComplete(d, 0);
    assert d[1..3] == [32, 78];
    assert [32, 78][1..] == [78];
    assert [78][1..] == [];
  }

  /** A longer prefix than the value needs is accepted: 5 written as `fd 05 00`. */
  lemma CompactSizeNonMinimal()
    ensures CompactSizeAt([253, 5, 0], 0) == Parsed(5, 3)
  {
    CompactSizeComplete([253, 5, 0], 0);
    assert [253, 5, 0][1..3] == [5, 0];
  }

  /** On an exhausted cursor every reader yields zeros (an empty script) and
      does not move. */
  lemma ReadersOnExhausted(data: seq<byte>)
    ensures U32At(data, |data|) == Parsed(0, |data|)
    ensures AmountAt(data, |data|) == Parsed(0, |data|)
    ensures CompactSizeAt(data, |data|) == Parsed(0, |data|)
    ensures TxidAt(data, |data|).value == Zeros(32) && TxidAt(data, |data|).next == |data|
    ensures ScriptAt(data, |data|) == Parsed("", |data|)
  {
    TakeExhausted(data, 1);
    TakeExhausted(data, 0);
    assert TxidAt(data, |data|).value == Zeros(32);
  }

  /** The txid comes out reversed: reversing it again gives the wire bytes
      (zero-filled where the buffer ran short). */
  lemma TxidReversesWire(data: seq<byte>, pos: nat)
    requires pos <= |data|
    ensures Reversed(TxidAt(data, pos).value) == Take(data, pos, 32).value
  {
    ReversedInvolution(Take(data, pos, 32).value);
  }

  /** Byte i of the txid is wire byte 31 - i of the field, 0 where the buffer ran short. */
  lemma TxidBytes(data: seq<byte>, pos: nat)
    requires pos <= |data|
    ensures forall i :: 0 <= i < 32 ==>
              TxidAt(data, pos).value[i] == if pos + 31 - i < |data| then data[pos + 31 - i] else 0
  {
    TakeBytes(data, pos, 32);
  }

  /** A script of declared length L is 2L lowercase hex digits, two per byte,
      high nibble first, of the L bytes read (zero-filled if the buffer ran
      short), so it decodes back to exactly those bytes. */
  lemma ScriptShape(data: seq<byte>, pos: nat)
    requires pos <= |data|
    ensures var size := CompactSizeAt(data, pos);
            var bytes := Take(data, size.next, size.value);
            var r := ScriptAt(data, pos);
            |r.value| == 2 * size.value &&
            Hex.IsLowerHex(r.value) &&
            Hex.Decode(r.value) == Ok(bytes.value) &&
            r.next == size.next + Min(size.value, |data| - size.next)
  {
    var size := CompactSizeAt(data, pos);
    var bytes := Take(data, size.next, size.value);
    Hex.EncodeIsLowerHex(bytes.value);
    Hex.DecodeOfEncode(bytes.value);
  }
}
