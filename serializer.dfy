/** The legacy transaction layout written out: a reference serializer that
    is the inverse of the decoder. Reading back what it writes gives the
    transaction it started from, field by field and in wire order, whatever
    bytes follow the lock time; those bytes only enter the transaction id.
    The decoder itself never serializes; this module exists to state what it reads. */
module Serializer {
  import opened Bytes
  import opened ByteCursor
  import opened Types
  import opened Fields
  import opened Decoder
  import opened Wrappers
  import Hex

  /** The minimal CompactSize encoding of v. */
  function SerializeCompactSize(v: u64): (r: seq<byte>)
    ensures |r| >= 1 && |r| == 1 + ContinuationWidth(r[0])
  {
    if v <= 252 then [v]
    else if v < 0x1_0000 then [253] + ToLE(v, 2)
    else if v < 0x1_0000_0000 then [254] + ToLE(v, 4)
    else [255] + ToLE(v, 8)
  }

  /** Script text the serializer can write back: lowercase hex whose byte
      count fits a CompactSize. */
  predicate IsScriptText(s: string) {
    Hex.IsLowerHex(s) && |s| / 2 < 0x1_0000_0000_0000_0000
  }

  /** A script on the wire: its byte count, then the bytes its hex text
      decodes to. */
  function SerializeScript(s: string): seq<byte>
    requires IsScriptText(s)
  {
    assert forall j :: 0 <= j < |s| ==> Hex.IsHexChar(s[j]);
    var b := Hex.Decode(s).value;
    SerializeCompactSize(|b|) + b
  }

  predicate IsSerializableInput(i: Input) {
    IsScriptText(i.scriptSig)
  }

  predicate IsSerializableOutput(o: Output) {
    IsScriptText(o.scriptPubkey)
  }

  predicate IsSerializable(tx: Transaction) {
    |tx.inputs| < 0x1_0000_0000_0000_0000 && |tx.outputs| < 0x1_0000_0000_0000_0000 &&
    (forall k :: 0 <= k < |tx.inputs| ==> IsSerializableInput(tx.inputs[k])) &&
    (forall k :: 0 <= k < |tx.outputs| ==> IsSerializableOutput(tx.outputs[k]))
  }

  /** An input on the wire: the txid in reverse of its stored order, then
      output index, script_sig and sequence. */
  function SerializeInput(i: Input): seq<byte>
    requires IsSerializableInput(i)
  {
    Reversed(i.txid) + ToLE(i.outputIndex, 4) + SerializeScript(i.scriptSig) + ToLE(i.sequence, 4)
  }

  function SerializeInputs(ins: seq<Input>): seq<byte>
    requires forall k :: 0 <= k < |ins| ==> IsSerializableInput(ins[k])
  {
    if |ins| == 0 then [] else SerializeInputs(ins[..|ins| - 1]) + SerializeInput(ins[|ins| - 1])
  }

  function SerializeOutput(o: Output): seq<byte>
    requires IsSerializableOutput(o)
  {
    ToLE(o.amount, 8) + SerializeScript(o.scriptPubkey)
  }

  function SerializeOutputs(outs: seq<Output>): seq<byte>
    requires forall k :: 0 <= k < |outs| ==> IsSerializableOutput(outs[k])
  {
    if |outs| == 0 then [] else SerializeOutputs(outs[..|outs| - 1]) + SerializeOutput(outs[|outs| - 1])
  }

  /** The legacy (pre-segwit) layout; the transaction id is not part of it. */
  function Serialize(tx: Transaction): seq<byte>
    requires IsSerializable(tx)
  {
    ToLE(tx.version, 4) +
    SerializeCompactSize(|tx.inputs|) + SerializeInputs(tx.inputs) +
    SerializeCompactSize(|tx.outputs|) + SerializeOutputs(tx.outputs) +
    ToLE(tx.lockTime, 4)
  }

  /** A non-empty list is its front followed by its last element. */
  lemma DropLastAppend<T>(s: seq<T>)
    requires |s| > 0
    ensures s[..|s| - 1] + [s[|s| - 1]] == s
  {
  }

  /** Each CompactSize prefix class reads back the value it was written with,
      consuming 1, 3, 5 or 9 bytes. */
  lemma CompactSizeRoundTrip(data: seq<byte>, pos: nat, v: u64)
    requires At(data, pos, SerializeCompactSize(v))
    ensures CompactSizeAt(data, pos) == Parsed(v, pos + |SerializeCompactSize(v)|)
  {
    var e := SerializeCompactSize(v);
    assert data[pos] == e[0];
    if v > 252 {
      var w := |e| - 1;
      Pow256Widths();
      CompactSizeComplete(data, pos);
      assert data[pos + 1..pos + 1 + w] == e[1..] == ToLE(v, w);
      LEOfToLE(v, w);
    }
  }

  lemma U32RoundTrip(data: seq<byte>, pos: nat, v: u32)
    requires At(data, pos, ToLE(v, 4))
    ensures U32At(data, pos) == Parsed(v, pos + 4)
  {
    Pow256Widths();
    LEOfToLE(v, 4);
  }

  lemma AmountRoundTrip(data: seq<byte>, pos: nat, v: Amount)
    requires At(data, pos, ToLE(v, 8))
    ensures AmountAt(data, pos) == Parsed(v, pos + 8)
  {
    Pow256Widths();
    LEOfToLE(v, 8);
  }

  /** A txid written in reverse reads back in stored order. */
  lemma TxidRoundTrip(data: seq<byte>, pos: nat, t: Txid)
    requires At(data, pos, Reversed(t))
    ensures TxidAt(data, pos) == Parsed(t, pos + 32)
  {
    TakeAt(data, pos, Reversed(t));
    ReversedInvolution(t);
  }

  /** A script written as its length and bytes reads back as the same hex text. */
  lemma ScriptRoundTrip(data: seq<byte>, pos: nat, s: string)
    requires IsScriptText(s) && At(data, pos, SerializeScript(s))
    ensures ScriptAt(data, pos) == Parsed(s, pos + |SerializeScript(s)|)
  {
    Hex.EncodeOfDecode(s);
    var b := Hex.Decode(s).value;
    var prefix := SerializeCompactSize(|b|);
    AtSplit(data, pos, prefix, b);
    CompactSizeRoundTrip(data, pos, |b|);
    TakeAt(data, pos + |prefix|, b);
  }

  lemma InputRoundTrip(data: seq<byte>, pos: nat, i: Input)
    requires IsSerializableInput(i) && At(data, pos, SerializeInput(i))
    ensures InputAt(data, pos) == Parsed(i, pos + |SerializeInput(i)|)
  {
    var a, b, c, d := Reversed(i.txid), ToLE(i.outputIndex, 4), SerializeScript(i.scriptSig), ToLE(i.sequence, 4);
    AtSplit(data, pos, a + b + c, d);
    AtSplit(data, pos, a + b, c);
    AtSplit(data, pos, a, b);
    TxidRoundTrip(data, pos, i.txid);
    U32RoundTrip(data, pos + |a|, i.outputIndex);
    ScriptRoundTrip(data, pos + |a| + |b|, i.scriptSig);
    U32RoundTrip(data, pos + |a| + |b| + |c|, i.sequence);
  }

  lemma {:induction false} InputsRoundTrip(data: seq<byte>, pos: nat, ins: seq<Input>)
    requires forall k :: 0 <= k < |ins| ==> IsSerializableInput(ins[k])
    requires At(data, pos, SerializeInputs(ins))
    ensures InputsFrom(data, pos, |ins|) == Parsed(ins, pos + |SerializeInputs(ins)|)
    decreases |ins|
  {
    if |ins| > 0 {
      var front, last := ins[..|ins| - 1], ins[|ins| - 1];
      var sf, sl := SerializeInputs(front), SerializeInput(last);
      var mid := pos + |sf|;
      assert |SerializeInputs(ins)| == |sf| + |sl| && At(data, pos, sf) && At(data, mid, sl) by {
        assert SerializeInputs(ins) == sf + sl;
        AtSplit(data, pos, sf, sl);
      }
      assert InputsFrom(data, pos, |front|) == Parsed(front, mid) by {
        InputsRoundTrip(data, pos, front);
      }
      InputsFromStep(data, pos, ins, mid);
    }
  }

  /** One more input read where the others end extends the list by it. */
  lemma InputsFromStep(data: seq<byte>, pos: nat, ins: seq<Input>, mid: nat)
    requires |ins| > 0 && pos <= |data|
    requires InputsFrom(data, pos, |ins[..|ins| - 1]|) == Parsed(ins[..|ins| - 1], mid)
    requires IsSerializableInput(ins[|ins| - 1]) && At(data, mid, SerializeInput(ins[|ins| - 1]))
    ensures InputsFrom(data, pos, |ins|) == Parsed(ins, mid + |SerializeInput(ins[|ins| - 1])|)
  {
    InputRoundTrip(data, mid, ins[|ins| - 1]);
    ManySnoc(InputAt, data, pos, ins[..|ins| - 1], ins[|ins| - 1], mid, mid + |SerializeInput(ins[|ins| - 1])|);
    DropLastAppend(ins);
  }

  lemma OutputRoundTrip(data: seq<byte>, pos: nat, o: Output)
    requires IsSerializableOutput(o) && At(data, pos, SerializeOutput(o))
    ensures OutputAt(data, pos) == Parsed(o, pos + |SerializeOutput(o)|)
  {
    var a, b := ToLE(o.amount, 8), SerializeScript(o.scriptPubkey);
    AtSplit(data, pos, a, b);
    AmountRoundTrip(data, pos, o.amount);
    ScriptRoundTrip(data, pos + |a|, o.scriptPubkey);
  }

  lemma {:induction false} OutputsRoundTrip(data: seq<byte>, pos: nat, outs: seq<Output>)
    requires forall k :: 0 <= k < |outs| ==> IsSerializableOutput(outs[k])
    requires At(data, pos, SerializeOutputs(outs))
    ensures OutputsFrom(data, pos, |outs|) == Parsed(outs, pos + |SerializeOutputs(outs)|)
    decreases |outs|
  {
    if |outs| > 0 {
      var front, last := outs[..|outs| - 1], outs[|outs| - 1];
      var sf, sl := SerializeOutputs(front), SerializeOutput(last);
      var mid := pos + |sf|;
      assert |SerializeOutputs(outs)| == |sf| + |sl| && At(data, pos, sf) && At(data, mid, sl) by {
        assert SerializeOutputs(outs) == sf + sl;
        AtSplit(data, pos, sf, sl);
      }
      assert OutputsFrom(data, pos, |front|) == Parsed(front, mid) by {
        OutputsRoundTrip(data, pos, front);
      }
      OutputsFromStep(data, pos, outs, mid);
    }
  }

  /** One more output read where the others end extends the list by it. */
  lemma OutputsFromStep(data: seq<byte>, pos: nat, outs: seq<Output>, mid: nat)
    requires |outs| > 0 && pos <= |data|
    requires OutputsFrom(data, pos, |outs[..|outs| - 1]|) == Parsed(outs[..|outs| - 1], mid)
    requires IsSerializableOutput(outs[|outs| - 1]) && At(data, mid, SerializeOutput(outs[|outs| - 1]))
    ensures OutputsFrom(data, pos, |outs|) == Parsed(outs, mid + |SerializeOutput(outs[|outs| - 1])|)
  {
    OutputRoundTrip(data, mid, outs[|outs| - 1]);
    ManySnoc(OutputAt, data, pos, outs[..|outs| - 1], outs[|outs| - 1], mid, mid + |SerializeOutput(outs[|outs| - 1])|);
    DropLastAppend(outs);
  }

  /** Where the input count, the inputs, the output count, the outputs and
      the lock time of a serialized transaction start: the length of what
      is written before each. */
  function InputCountOffset(tx: Transaction): nat {
    |ToLE(tx.version, 4)|
  }

  function InputsOffset(tx: Transaction): nat
    requires IsSerializable(tx)
  {
    |ToLE(tx.version, 4) + SerializeCompactSize(|tx.inputs|)|
  }

  function OutputCountOffset(tx: Transaction): nat
    requires IsSerializable(tx)
  {
    |ToLE(tx.version, 4) + SerializeCompactSize(|tx.inputs|) + SerializeInputs(tx.inputs)|
  }

  function OutputsOffset(tx: Transaction): nat
    requires IsSerializable(tx)
  {
    |ToLE(tx.version, 4) + SerializeCompactSize(|tx.inputs|) + SerializeInputs(tx.inputs) +
     SerializeCompactSize(|tx.outputs|)|
  }

  function LockTimeOffset(tx: Transaction): nat
    requires IsSerializable(tx)
  {
    |ToLE(tx.version, 4) + SerializeCompactSize(|tx.inputs|) + SerializeInputs(tx.inputs) +
     SerializeCompactSize(|tx.outputs|) + SerializeOutputs(tx.outputs)|
  }

  /** The pieces of a serialized transaction followed by rest, where they lie. */
  lemma Layout(tx: Transaction, rest: seq<byte>)
    requires IsSerializable(tx)
    ensures var raw := Serialize(tx) + rest;
            |Serialize(tx)| == LockTimeOffset(tx) + 4 &&
            At(raw, 0, ToLE(tx.version, 4)) &&
            At(raw, InputCountOffset(tx), SerializeCompactSize(|tx.inputs|)) &&
            At(raw, InputsOffset(tx), SerializeInputs(tx.inputs)) &&
            At(raw, OutputCountOffset(tx), SerializeCompactSize(|tx.outputs|)) &&
            At(raw, OutputsOffset(tx), SerializeOutputs(tx.outputs)) &&
            At(raw, LockTimeOffset(tx), ToLE(tx.lockTime, 4))
  {
    var raw := Serialize(tx) + rest;
    var a := ToLE(tx.version, 4);
    var b := SerializeCompactSize(|tx.inputs|);
    var c := SerializeInputs(tx.inputs);
    var d := SerializeCompactSize(|tx.outputs|);
    var e := SerializeOutputs(tx.outputs);
    var f := ToLE(tx.lockTime, 4);
    AtStart(Serialize(tx), rest);
    AtSplit(raw, 0, a + b + c + d + e, f);
    AtSplit(raw, 0, a + b + c + d, e);
    AtSplit(raw, 0, a + b + c, d);
    AtSplit(raw, 0, a + b, c);
    AtSplit(raw, 0, a, b);
  }

  /** The six reads of `decode` on a serialized transaction, one per field. */
  lemma FieldsRoundTrip(tx: Transaction, rest: seq<byte>)
    requires IsSerializable(tx)
    ensures var raw := Serialize(tx) + rest;
            U32At(raw, 0) == Parsed(tx.version, InputCountOffset(tx)) &&
            CompactSizeAt(raw, InputCountOffset(tx)) == Parsed(|tx.inputs|, InputsOffset(tx)) &&
            InputsFrom(raw, InputsOffset(tx), |tx.inputs|) == Parsed(tx.inputs, OutputCountOffset(tx)) &&
            CompactSizeAt(raw, OutputCountOffset(tx)) == Parsed(|tx.outputs|, OutputsOffset(tx)) &&
            OutputsFrom(raw, OutputsOffset(tx), |tx.outputs|) == Parsed(tx.outputs, LockTimeOffset(tx)) &&
            U32At(raw, LockTimeOffset(tx)) == Parsed(tx.lockTime, LockTimeOffset(tx) + 4)
  {
    var raw := Serialize(tx) + rest;
    Layout(tx, rest);
    U32RoundTrip(raw, 0, tx.version);
    CompactSizeRoundTrip(raw, InputCountOffset(tx), |tx.inputs|);
    InputsRoundTrip(raw, InputsOffset(tx), tx.inputs);
    CompactSizeRoundTrip(raw, OutputCountOffset(tx), |tx.outputs|);
    OutputsRoundTrip(raw, OutputsOffset(tx), tx.outputs);
    U32RoundTrip(raw, LockTimeOffset(tx), tx.lockTime);
  }

  /** Parsing a serialized transaction followed by any bytes gives back every
      field and stops right after the lock time; the trailing bytes are
      ignored by the parse and enter only the id, which hashes the whole buffer. */
  lemma ParseOfSerialize(tx: Transaction, rest: seq<byte>, sha256: Sha256)
    requires IsSerializable(tx)
    ensures var raw := Serialize(tx) + rest;
            ParseTransaction(raw, sha256) ==
              Parsed(tx.(transactionId := HashRawTransaction(sha256, raw)), |Serialize(tx)|)
  {
    Layout(tx, rest);
    FieldsRoundTrip(tx, rest);
  }

  /** End to end: `decode` of the hex of a serialized transaction followed by
      any bytes succeeds with that transaction, its id taken over all of it. */
  lemma DecodeOfSerialize(tx: Transaction, rest: seq<byte>, sha256: Sha256)
    requires IsSerializable(tx)
    ensures var raw := Serialize(tx) + rest;
            DecodeSpec(Hex.Encode(raw), sha256) == Ok(tx.(transactionId := sha256(sha256(raw))))
  {
    Hex.DecodeOfEncode(Serialize(tx) + rest);
    ParseOfSerialize(tx, rest, sha256);
  }
}
