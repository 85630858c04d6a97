/** The `&mut &[u8]` every reader takes: a forward-only cursor over an
    immutable byte buffer. Reading n bytes goes through `Read for &[u8]`,
    which copies min(n, remaining) bytes, advances by that many and never
    fails; the rest of the caller's buffer keeps its zero initialisation. */
module ByteCursor {
  import opened Bytes

  /** A value read at some position, with the position the cursor moved to. */
  datatype Parsed<T> = Parsed(value: T, next: nat)

  function Min(a: nat, b: nat): nat {
    if a <= b then a else b
  }

  /** What reading n bytes into a zero-filled buffer yields at position pos:
      the bytes that are there, zeros for those that are not. */
  function Take(data: seq<byte>, pos: nat, n: nat): (r: Parsed<seq<byte>>)
    requires pos <= |data|
    ensures |r.value| == n
    ensures pos <= r.next <= |data|
    ensures r.next - pos == Min(n, |data| - pos)
  {
    var k := Min(n, |data| - pos);
    Parsed(data[pos..pos + k] + Zeros(n - k), pos + k)
  }

  /** Byte i of the read is data[pos + i] where the buffer has it, 0 beyond. */
  lemma TakeBytes(data: seq<byte>, pos: nat, n: nat)
    requires pos <= |data|
    ensures forall i :: 0 <= i < n ==>
              Take(data, pos, n).value[i] == if pos + i < |data| then data[pos + i] else 0
  {
  }

  /** s lies in data at pos. */
  predicate At(data: seq<byte>, pos: nat, s: seq<byte>) {
    pos + |s| <= |data| && data[pos..pos + |s|] == s
  }

  lemma AtSplit(data: seq<byte>, pos: nat, s: seq<byte>, t: seq<byte>)
    requires At(data, pos, s + t)
    ensures At(data, pos, s) && At(data, pos + |s|, t)
  {
    assert data[pos..pos + |s|] == (s + t)[..|s|];
    assert data[pos + |s|..pos + |s| + |t|] == (s + t)[|s|..];
  }

  /** A buffer begins with its own prefix. */
  lemma AtStart(s: seq<byte>, t: seq<byte>)
    ensures At(s + t, 0, s)
  {
    assert (s + t)[..|s|] == s;
  }

  /** A read that finds its n bytes in the buffer returns exactly them and
      advances by exactly n. */
  lemma TakeAt(data: seq<byte>, pos: nat, s: seq<byte>)
    requires At(data, pos, s)
    ensures Take(data, pos, |s|) == Parsed(s, pos + |s|)
  {
    assert Take(data, pos, |s|).value == s;
  }

  /** A read on an exhausted cursor yields only zeros and does not move. */
  lemma TakeExhausted(data: seq<byte>, n: nat)
    ensures Take(data, |data|, n) == Parsed(Zeros(n), |data|)
  {
    assert Take(data, |data|, n).value == Zeros(n);
  }

  /** A short read returns the remaining bytes padded with zeros and moves to the end. */
  lemma TakeShort(data: seq<byte>, pos: nat, n: nat)
    requires pos <= |data| < pos + n
    ensures Take(data, pos, n) == Parsed(data[pos..] + Zeros(n - (|data| - pos)), |data|)
  {
    var t := Take(data, pos, n);
    assert t.value == data[pos..] + Zeros(n - (|data| - pos));
  }

  /** The value of a little-endian field is that of the bytes actually read:
      the zero fill of a short read only adds high-order zeros. */
  lemma LEOfTake(data: seq<byte>, pos: nat, n: nat)
    requires pos <= |data|
    ensures LE(Take(data, pos, n).value) == LE(data[pos..Take(data, pos, n).next])
  {
    var t := Take(data, pos, n);
    var k := t.next - pos;
    assert t.value == data[pos..t.next] + Zeros(n - k);
    LEZeroPadded(data[pos..t.next], n - k);
  }

  class Cursor {
    /** The buffer; the cursor never changes it. */
    const data: seq<byte>
    /** How far the slice has been advanced into data. */
    var pos: nat

    ghost predicate Valid()
      reads this
    {
      pos <= |data|
    }

    /** `bytes.as_slice()`: a cursor at the start of bytes. */
    constructor (bytes: seq<byte>)
      ensures Valid() && data == bytes && pos == 0
    {
      data := bytes;
      pos := 0;
    }

    /** The slice the cursor currently stands for. */
    function Remaining(): (r: seq<byte>)
      reads this
      requires Valid()
      ensures |r| == |data| - pos
    {
      data[pos..]
    }

    /** `<&[u8] as Read>::read`: copies amt = min(buf.Length, remaining) bytes
        into the front of buf, leaves the rest of buf alone and advances by amt. */
    method Read(buf: array<byte>) returns (amt: nat)
      requires Valid()
      modifies this, buf
      ensures Valid()
      ensures amt == Min(buf.Length, |old(Remaining())|)
      ensures pos == old(pos) + amt
      ensures buf[..amt] == old(Remaining())[..amt]
      ensures buf[amt..] == old(buf[amt..])
    {
      amt := Min(buf.Length, |data| - pos);
      var i := 0;
      while i < amt
        modifies buf
        invariant 0 <= i <= amt
        invariant forall j :: 0 <= j < i ==> buf[j] == data[pos + j]
        invariant forall j :: amt <= j < buf.Length ==> buf[j] == old(buf[j])
      {
        buf[i] := data[pos + i];
        i := i + 1;
      }
      pos := pos + amt;
    }

    /** Reading into a zero-filled n-byte buffer, as every reader does, fills it
        with exactly Take(data, pos, n).value and moves to Take(data, pos, n).next. */
    method ReadZeroFilled(n: nat) returns (buf: array<byte>)
      requires Valid()
      modifies this
      ensures Valid() && fresh(buf)
      ensures Parsed(buf[..], pos) == Take(data, old(pos), n)
    {
      buf := new byte[n](_ => 0);
      ghost var start := pos;
      var amt := Read(buf);
      assert buf[..] == buf[..amt] + buf[amt..];
      assert buf[..] == data[start..start + amt] + Zeros(n - amt);
    }
  }
}
