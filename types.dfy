/** The records of the `transaction` module the decoder fills in. */
module Types {
  import opened Bytes

  type Bytes32 = s: seq<byte> | |s| == 32 witness Zeros(32)

  /** A transaction id, in the byte order the decoder stores it. */
  type Txid = Bytes32

  /** A count of satoshis (`Amount::from_sat`). */
  type Amount = u64

  /** A reference to the output being spent, with its unlocking script as hex text. */
  datatype Input = Input(txid: Txid, outputIndex: u32, scriptSig: string, sequence: u32)

  /** A new output: its value and its locking script as hex text. */
  datatype Output = Output(amount: Amount, scriptPubkey: string)

  datatype Transaction = Transaction(
    version: u32,
    inputs: seq<Input>,
    outputs: seq<Output>,
    lockTime: u32,
    transactionId: Txid)
}
