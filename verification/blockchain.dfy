/** The chain records the core consumes: account-history entries as the node
    returns them, and the transactions they are grouped into. */
module Blockchain {
  import opened Json
  import opened Moments

  /** An Error object handed along a chain in place of an item. */
  datatype ChainError = ChainError(message: string)

  /** `op: [typeName, payload]`. */
  datatype OpBody = OpBody(typeName: string, payload: JsValue)

  /** One entry of `get_account_history`: `[index, {block, op, op_in_trx,
      timestamp, trx_id, trx_in_block, virtual_op}]`. The timestamp is kept
      as the node's text. */
  datatype RawOperation = RawOperation(
    index: nat,
    block: nat,
    op: OpBody,
    opInTrx: nat,
    timestamp: string,
    trxId: string,
    trxInBlock: nat,
    virtualOp: nat)

  /** A SteemTransaction: the operations of one transaction id with the block
      position and timestamp of its first operation. */
  datatype Transaction = Transaction(
    blockNum: nat,
    transactionNum: nat,
    transactionId: string,
    timestamp: string,
    ops: seq<OpBody>)

  /** `SteemOperationNumber.fromOperation(rawOp)`: the chain position of a raw
      operation. */
  function MomentOf(rawOp: RawOperation): (m: Moment)
    ensures m.blockNum == rawOp.block && m.transactionNum == rawOp.trxInBlock && m.operationNum == rawOp.opInTrx
  {
    Moment(rawOp.block, rawOp.trxInBlock, rawOp.opInTrx)
  }
}
