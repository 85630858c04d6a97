/** The field readers. Each allocates a zero-filled buffer, lets the cursor
    `read` into it and converts the buffer; each is proved to compute exactly
    what the matching function of `Fields` says and to move the cursor there. */
module Readers {
  import opened Bytes
  import opened ByteCursor
  import opened Types
  import opened Fields
  import Hex

  /** `read_u32`. */
  method ReadU32(c: Cursor) returns (v: u32)
    requires c.Valid()
    modifies c
    ensures c.Valid()
    ensures Parsed(v, c.pos) == U32At(c.data, old(c.pos))
  {
    var buffer := c.ReadZeroFilled(4);
    Pow256Widths();
    v := LE(buffer[..]);
  }

  /** `read_amount`. */
  method ReadAmount(c: Cursor) returns (v: Amount)
    requires c.Valid()
    modifies c
    ensures c.Valid()
    ensures Parsed(v, c.pos) == AmountAt(c.data, old(c.pos))
  {
    var buffer := c.ReadZeroFilled(8);
    Pow256Widths();
    v := LE(buffer[..]);
  }

  /** `[u8]::reverse`, in place. */
  method ReverseInPlace(a: array<byte>)
    modifies a
    ensures a[..] == Reversed(old(a[..]))
  {
    var lo, hi := 0, a.Length;
    while lo + 1 < hi
      invariant 0 <= lo <= hi && lo + hi == a.Length
      invariant forall k :: 0 <= k < lo ==> a[k] == old(a[a.Length - 1 - k]) && a[a.Length - 1 - k] == old(a[k])
      invariant forall k :: lo <= k < hi ==> a[k] == old(a[k])
    {
      a[lo], a[hi - 1] := a[hi - 1], a[lo];
      lo, hi := lo + 1, hi - 1;
    }
  }

  /** `read_txid`: 32 bytes, reversed in place. */
  method ReadTxid(c: Cursor) returns (txid: Txid)
    requires c.Valid()
    modifies c
    ensures c.Valid()
    ensures Parsed(txid, c.pos) == TxidAt(c.data, old(c.pos))
  {
    var buffer := c.ReadZeroFilled(32);
    ReverseInPlace(buffer);
    txid := buffer[..];
  }

  /** `read_compact_size`. */
  method ReadCompactSize(c: Cursor) returns (size: u64)
    requires c.Valid()
    modifies c
    ensures c.Valid()
    ensures Parsed(size, c.pos) == CompactSizeAt(c.data, old(c.pos))
  {
    var compactSize := c.ReadZeroFilled(1);
    Pow256Widths();
    if compactSize[0] <= 252 {
      size := compactSize[0];
    } else if compactSize[0] == 253 {
      var buffer := c.ReadZeroFilled(2);
      size := LE(buffer[..]);
    } else if compactSize[0] == 254 {
      var buffer := c.ReadZeroFilled(4);
      size := LE(buffer[..]);
    } else {
      var buffer := c.ReadZeroFilled(8);
      size := LE(buffer[..]);
    }
  }

  /** `read_script`: a CompactSize length, that many bytes, as hex. */
  method ReadScript(c: Cursor) returns (script: string)
    requires c.Valid()
    modifies c
    ensures c.Valid()
    ensures Parsed(script, c.pos) == ScriptAt(c.data, old(c.pos))
  {
    var scriptSize := ReadCompactSize(c);
    var buffer := c.ReadZeroFilled(scriptSize);
    script := Hex.Encode(buffer[..]);
  }
}
