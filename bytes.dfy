/** Bytes and the fixed-width unsigned integers of the wire format, with
    little-endian composition (`uN::from_le_bytes`) and byte-order reversal. */
module Bytes {

  type byte = x: int | 0 <= x < 256
  type u16 = x: int | 0 <= x < 0x1_0000
  type u32 = x: int | 0 <= x < 0x1_0000_0000
  type u64 = x: int | 0 <= x < 0x1_0000_0000_0000_0000

  /** 256 to the power n: one more than the largest value n bytes can hold. */
  function Pow256(n: nat): (r: nat)
    ensures r >= 1
  {
    if n == 0 then 1 else 256 * Pow256(n - 1)
  }

  lemma Pow256Widths()
    ensures Pow256(1) == 0x100
    ensures Pow256(2) == 0x1_0000
    ensures Pow256(4) == 0x1_0000_0000
    ensures Pow256(8) == 0x1_0000_0000_0000_0000
  {
  }

  /** n zero bytes: the initial contents of a freshly allocated read buffer. */
  function Zeros(n: nat): (r: seq<byte>)
    ensures |r| == n && forall i :: 0 <= i < n ==> r[i] == 0
  {
    seq(n, _ => 0)
  }

  /** The unsigned value of bs read little-endian: bs[0] is the least significant byte. */
  function LE(bs: seq<byte>): (r: nat)
    ensures r < Pow256(|bs|)
  {
    if |bs| == 0 then 0
    else
      var rest := LE(bs[1..]);
      assert 256 * rest <= 256 * (Pow256(|bs| - 1) - 1);
      bs[0] + 256 * rest
  }

  /** The n-byte little-endian encoding of v (v is taken modulo 256^n). */
  function ToLE(v: nat, n: nat): (r: seq<byte>)
    ensures |r| == n
  {
    if n == 0 then [] else [v % 256] + ToLE(v / 256, n - 1)
  }

  /** s in the opposite order; `[T]::reverse` performs it in place. */
  function Reversed(s: seq<byte>): (r: seq<byte>)
    ensures |r| == |s|
    ensures forall i :: 0 <= i < |s| ==> r[i] == s[|s| - 1 - i]
  {
    seq(|s|, i requires 0 <= i < |s| => s[|s| - 1 - i])
  }

  /** Reading back an encoding gives the value it encodes. */
  lemma {:induction false} LEOfToLE(v: nat, n: nat)
    requires v < Pow256(n)
    ensures LE(ToLE(v, n)) == v
  {
    if n > 0 {
      assert v / 256 < Pow256(n - 1);
      LEOfToLE(v / 256, n - 1);
      assert ToLE(v, n)[1..] == ToLE(v / 256, n - 1);
    }
  }

  /** Encoding a decoded value gives back the bytes it was read from:
      little-endian composition loses nothing. */
  lemma {:induction false} ToLEOfLE(bs: seq<byte>)
    ensures ToLE(LE(bs), |bs|) == bs
  {
    if |bs| > 0 {
      var rest := LE(bs[1..]);
      assert (bs[0] + 256 * rest) % 256 == bs[0];
      assert (bs[0] + 256 * rest) / 256 == rest;
      ToLEOfLE(bs[1..]);
    }
  }

  /** Zero bytes appended at the high end do not change a little-endian value:
      a zero-padded short read decodes as the bytes that were actually there. */
  lemma {:induction false} LEZeroPadded(bs: seq<byte>, m: nat)
    ensures LE(bs + Zeros(m)) == LE(bs)
  {
    if |bs| == 0 {
      LEZeros(m);
      assert bs + Zeros(m) == Zeros(m);
    } else {
      assert (bs + Zeros(m))[1..] == bs[1..] + Zeros(m);
      LEZeroPadded(bs[1..], m);
    }
  }

  /** n - 1 zero bytes followed by a 1 read as 256^(n - 1). */
  lemma {:induction false} LEHighByte(n: nat)
    requires n >= 1
    ensures LE(Zeros(n - 1) + [1]) == Pow256(n - 1)
  {
    if n == 1 {
      assert Zeros(0) + [1] == [1];
      assert [1][1..] == [];
    } else {
      assert (Zeros(n - 1) + [1])[1..] == Zeros(n - 2) + [1];
      LEHighByte(n - 1);
    }
  }

  /** Any number of zero bytes reads as 0. */
  lemma {:induction false} LEZeros(m: nat)
    ensures LE(Zeros(m)) == 0
  {
    if m > 0 {
      assert Zeros(m)[1..] == Zeros(m - 1);
      LEZeros(m - 1);
    }
  }

  /** Reversal is an involution: reversing the display-order txid gives back wire order. */
  lemma ReversedInvolution(s: seq<byte>)
    ensures Reversed(Reversed(s)) == s
  {
  }
}
