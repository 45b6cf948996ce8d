/**
 * Block digest (steem/utils.py, `block_info`). The block is taken as the
 * output of the external `prepare_raw_block`: a block number and the
 * transactions, each a list of `(op_type, payload)` operations.
 */
module BlockDigest {
  import opened Wrappers
  import opened PyValue

  datatype Operation = Operation(opType: string, payload: Value)
  datatype Transaction = Transaction(operations: seq<Operation>)
  datatype PreparedBlock = PreparedBlock(blockNum: int, transactions: seq<Transaction>)

  /** The `info` dict that `block_info` returns. */
  datatype Digest = Digest(
    blockNum: int,
    transactionCount: nat,
    operationCount: nat,
    transactions: seq<string>,
    brief: string)

  /** Taking the first operation of a transaction that has none. */
  datatype DigestError = IndexError

  /** The `brief` string, stored as written: its placeholders are never filled in. */
  const BriefTemplate: string :=
    "block: {block_num} transaction_types: {transactions} total_operations: {operation_count}"

  predicate EveryTransactionHasOperations(txs: seq<Transaction>) {
    forall k :: 0 <= k < |txs| ==> |txs[k].operations| >= 1
  }

  /**
   * The number of operations over all transactions (the sum in
   * steem/utils.py:139-140). It is zero exactly when no transaction has an
   * operation, and at least the number of transactions when each has one.
   */
  function TotalOperations(txs: seq<Transaction>): (total: nat)
    ensures total == 0 <==> forall k :: 0 <= k < |txs| ==> txs[k].operations == []
    ensures EveryTransactionHasOperations(txs) ==> total >= |txs|
  {
    if txs == [] then 0 else |txs[0].operations| + TotalOperations(txs[1..])
  }

  /** `block_info(block)` (steem/utils.py:133-147), after `prepare_raw_block`. */
  method BlockInfo(block: PreparedBlock) returns (r: Result<Digest, DigestError>)
    ensures r.Success? <==> EveryTransactionHasOperations(block.transactions)
    ensures r.Success? ==> r.value.blockNum == block.blockNum
    ensures r.Success? ==> r.value.transactionCount == |block.transactions|
    ensures r.Success? ==> r.value.operationCount == TotalOperations(block.transactions)
    ensures r.Success? ==> r.value.operationCount >= r.value.transactionCount
    ensures r.Success? ==> |r.value.transactions| == |block.transactions|
    ensures r.Success? ==> forall k :: 0 <= k < |block.transactions| ==>
      r.value.transactions[k] == block.transactions[k].operations[0].opType
    ensures r.Success? ==> r.value.brief == BriefTemplate
  {
    var txs := block.transactions;
    var info := Digest(block.blockNum, |txs|, TotalOperations(txs), [], BriefTemplate);
    for k := 0 to |txs|
      invariant |info.transactions| == k
      invariant forall j :: 0 <= j < k ==> |txs[j].operations| >= 1
      invariant forall j :: 0 <= j < k ==> info.transactions[j] == txs[j].operations[0].opType
      invariant info.blockNum == block.blockNum && info.brief == BriefTemplate
      invariant info.transactionCount == |txs| && info.operationCount == TotalOperations(txs)
    {
      if |txs[k].operations| == 0 {
        return Failure(IndexError);
      }
      info := info.(transactions := info.transactions + [txs[k].operations[0].opType]);
    }
    r := Success(info);
  }
}
