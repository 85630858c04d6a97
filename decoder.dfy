/** `decode`: hex text to a `Transaction`. The hex text is decoded to the raw
    buffer, a cursor walks it field by field (version, inputs, outputs, lock
    time), and the transaction id is the double SHA-256 of the whole raw buffer,
    however far the cursor got. SHA-256 itself is supplied by the caller. */
module Decoder {
  import opened Bytes
  import opened ByteCursor
  import opened Types
  import opened Fields
  import opened Readers
  import opened Wrappers
  import Hex

  /** The one way `decode` can fail: "Hex decode error: …" with the hex crate's cause. */
  datatype DecodeError = HexDecodeError(cause: Hex.FromHexError)

  /** A SHA-256 implementation: any function from bytes to 32-byte digests. */
  type Sha256 = seq<byte> -> Bytes32

  /** `hash_raw_transaction`: SHA-256 of SHA-256 of the raw bytes, as computed
      (no reversal). It cannot fail. */
  function HashRawTransaction(sha256: Sha256, raw: seq<byte>): Txid
  {
    sha256(sha256(raw))
  }

  /** One input: txid, output index, script_sig, sequence, in that order. */
  function InputAt(data: seq<byte>, pos: nat): (r: Parsed<Input>)
    requires pos <= |data|
    ensures pos <= r.next <= |data|
  {
    var txid := TxidAt(data, pos);
    var outputIndex := U32At(data, txid.next);
    var scriptSig := ScriptAt(data, outputIndex.next);
    var sequence := U32At(data, scriptSig.next);
    Parsed(Input(txid.value, outputIndex.value, scriptSig.value, sequence.value), sequence.next)
  }

  /** A reader of one item: defined everywhere inside the buffer, and never
      moving the cursor back or past the end. */
  ghost predicate IsItemReader<T>(item: (seq<byte>, nat) --> Parsed<T>, data: seq<byte>)
  {
    forall p: nat :: p <= |data| ==> item.requires(data, p) && p <= item(data, p).next <= |data|
  }

  /** `for _ in 0..count`: count items read one after another from pos on. */
  function Many<T>(item: (seq<byte>, nat) --> Parsed<T>, data: seq<byte>, pos: nat, count: nat): (r: Parsed<seq<T>>)
    requires pos <= |data| && IsItemReader(item, data)
    ensures |r.value| == count
    ensures pos <= r.next <= |data|
    decreases count
  {
    if count == 0 then Parsed([], pos)
    else
      var done := Many(item, data, pos, count - 1);
      var x := item(data, done.next);
      Parsed(done.value + [x.value], x.next)
  }

  /** The first count inputs from pos on, in wire order. */
  function InputsFrom(data: seq<byte>, pos: nat, count: nat): (r: Parsed<seq<Input>>)
    requires pos <= |data|
    ensures |r.value| == count
    ensures pos <= r.next <= |data|
  {
    Many(InputAt, data, pos, count)
  }

  /** One output: amount, then script_pubkey. */
  function OutputAt(data: seq<byte>, pos: nat): (r: Parsed<Output>)
    requires pos <= |data|
    ensures pos <= r.next <= |data|
  {
    var amount := AmountAt(data, pos);
    var scriptPubkey := ScriptAt(data, amount.next);
    Parsed(Output(amount.value, scriptPubkey.value), scriptPubkey.next)
  }

  /** The first count outputs from pos on, in wire order. */
  function OutputsFrom(data: seq<byte>, pos: nat, count: nat): (r: Parsed<seq<Output>>)
    requires pos <= |data|
    ensures |r.value| == count
    ensures pos <= r.next <= |data|
  {
    Many(OutputAt, data, pos, count)
  }

  /** The transaction the decoder builds from raw, with where the cursor stops. */
  function ParseTransaction(raw: seq<byte>, sha256: Sha256): (r: Parsed<Transaction>)
    ensures r.next <= |raw|
  {
    var version := U32At(raw, 0);
    var inputCount := CompactSizeAt(raw, version.next);
    var inputs := InputsFrom(raw, inputCount.next, inputCount.value);
    var outputCount := CompactSizeAt(raw, inputs.next);
    var outputs := OutputsFrom(raw, outputCount.next, outputCount.value);
    var lockTime := U32At(raw, outputs.next);
    Parsed(
      Transaction(version.value, inputs.value, outputs.value, lockTime.value, HashRawTransaction(sha256, raw)),
      lockTime.next)
  }

  /** What `decode` returns for the hex text, before rendering. */
  function DecodeSpec(transactionHex: string, sha256: Sha256): Result<Transaction, DecodeError>
  {
    match Hex.Decode(transactionHex)
    case Err(e) => Err(HexDecodeError(e))
    case Ok(raw) => Ok(ParseTransaction(raw, sha256).value)
  }

  /** `decode`. */
  method Decode(transactionHex: string, sha256: Sha256) returns (r: Result<Transaction, DecodeError>)
    ensures r == DecodeSpec(transactionHex, sha256)
  {
    var decoded := Hex.Decode(transactionHex);
    if decoded.Err? {
      return Err(HexDecodeError(decoded.error));
    }
    var transactionBytes := decoded.value;
    var bytesSlice := new Cursor(transactionBytes);
    var version := ReadU32(bytesSlice);
    var inputCount := ReadCompactSize(bytesSlice);
    ghost var inputsStart := bytesSlice.pos;
    var inputs: seq<Input> := [];
    for k := 0 to inputCount
      invariant bytesSlice.Valid() && inputsStart <= |transactionBytes|
      invariant InputsFrom(transactionBytes, inputsStart, k) == Parsed(inputs, bytesSlice.pos)
    {
      var txid := ReadTxid(bytesSlice);
      var outputIndex := ReadU32(bytesSlice);
      var scriptSig := ReadScript(bytesSlice);
      var sequence := ReadU32(bytesSlice);
      inputs := inputs + [Input(txid, outputIndex, scriptSig, sequence)];
    }

    var outputCount := ReadCompactSize(bytesSlice);
    ghost var outputsStart := bytesSlice.pos;
    var outputs: seq<Output> := [];
    for k := 0 to outputCount
      invariant bytesSlice.Valid() && outputsStart <= |transactionBytes|
      invariant OutputsFrom(transactionBytes, outputsStart, k) == Parsed(outputs, bytesSlice.pos)
    {
      var amount := ReadAmount(bytesSlice);
      var scriptPubkey := ReadScript(bytesSlice);
      outputs := outputs + [Output(amount, scriptPubkey)];
    }

    var lockTime := ReadU32(bytesSlice);
    var transactionId := HashRawTransaction(sha256, transactionBytes);
    r := Ok(Transaction(version, inputs, outputs, lockTime, transactionId));
  }

  /** Invalid hex text is the only way to fail, and is reported with its cause;
      truncated or over-long binary input still decodes. */
  lemma DecodeFailsOnlyOnBadHex(transactionHex: string, sha256: Sha256)
    ensures DecodeSpec(transactionHex, sha256).Err? <==> Hex.Decode(transactionHex).Err?
    ensures DecodeSpec(transactionHex, sha256).Err? ==>
              DecodeSpec(transactionHex, sha256).error == HexDecodeError(Hex.Decode(transactionHex).error)
  {
  }

  /** A decoded transaction has exactly as many inputs and outputs as the
      counts read before them say, and its id is the double hash of the whole
      raw buffer, trailing bytes included, wherever the cursor stopped. */
  lemma DecodedShape(transactionHex: string, sha256: Sha256)
    requires Hex.Decode(transactionHex).Ok?
    ensures var raw := Hex.Decode(transactionHex).value;
            var tx := DecodeSpec(transactionHex, sha256).value;
            var version := U32At(raw, 0);
            var inputCount := CompactSizeAt(raw, version.next);
            var inputs := InputsFrom(raw, inputCount.next, inputCount.value);
            var outputCount := CompactSizeAt(raw, inputs.next);
            tx.version == version.value &&
            |tx.inputs| == inputCount.value &&
            |tx.outputs| == outputCount.value &&
            tx.transactionId == sha256(sha256(raw))
  {
  }

  /** The n-th item is the one read where the first n items end. */
  lemma {:induction false} ManyInOrder<T>(item: (seq<byte>, nat) --> Parsed<T>, data: seq<byte>, pos: nat, count: nat, n: nat)
    requires pos <= |data| && IsItemReader(item, data) && n < count
    ensures Many(item, data, pos, count).value[n] == item(data, Many(item, data, pos, n).next).value
    decreases count
  {
    var done := Many(item, data, pos, count - 1);
    var x := item(data, done.next);
    assert Many(item, data, pos, count).value == done.value + [x.value];
    if n < count - 1 {
      ManyInOrder(item, data, pos, count - 1, n);
    }
  }

  /** One more item, read where the first ones end, extends the list by it. */
  lemma ManySnoc<T>(item: (seq<byte>, nat) --> Parsed<T>, data: seq<byte>, pos: nat, front: seq<T>, last: T, mid: nat, end: nat)
    requires pos <= |data| && IsItemReader(item, data)
    requires Many(item, data, pos, |front|) == Parsed(front, mid)
    requires item(data, mid) == Parsed(last, end)
    ensures Many(item, data, pos, |front| + 1) == Parsed(front + [last], end)
  {
  }

  /** The n-th input is the one read where the first n inputs end. */
  lemma InputsInWireOrder(data: seq<byte>, pos: nat, count: nat, n: nat)
    requires pos <= |data| && n < count
    ensures InputsFrom(data, pos, count).value[n] == InputAt(data, InputsFrom(data, pos, n).next).value
  {
    ManyInOrder(InputAt, data, pos, count, n);
  }

  /** The n-th output is the one read where the first n outputs end. */
  lemma OutputsInWireOrder(data: seq<byte>, pos: nat, count: nat, n: nat)
    requires pos <= |data| && n < count
    ensures OutputsFrom(data, pos, count).value[n] == OutputAt(data, OutputsFrom(data, pos, n).next).value
  {
    ManyInOrder(OutputAt, data, pos, count, n);
  }

  /** A buffer that ends right after an input count of 2 still decodes: two
      zero-filled inputs, no outputs, lock time 0. */
  lemma TruncatedStillDecodes(sha256: Sha256)
    ensures var tx := ParseTransaction([1, 0, 0, 0, 2], sha256).value;
            tx.version == 1 &&
            tx.inputs == [Input(Zeros(32), 0, "", 0), Input(Zeros(32), 0, "", 0)] &&
            tx.outputs == [] && tx.lockTime == 0
  {
    var raw: seq<byte> := [1, 0, 0, 0, 2];
    assert raw[0..4] == [1, 0, 0, 0];
    assert LE([1, 0, 0, 0]) == 1 by {
      assert [1, 0, 0, 0] == [1] + Zeros(3);
      LEZeroPadded([1], 3);
      assert [1][1..] == [];
    }
    CompactSizeSingleByte(raw, 4);
    ReadersOnExhausted(raw);
    assert InputAt(raw, 5) == Parsed(Input(Zeros(32), 0, "", 0), 5);
  }
}
