/**
 * The record of one rejected transaction, `InvalidTxnInfo`, and the publisher
 * that receives such records.
 *
 * The record holds either the full transaction or, once truncated, only its size
 * and id; it says where the transaction came from (a block, or a peer or RPC
 * caller); and it carries the validation outcome and the rejection time. Only the
 * transaction part can change after construction, so it is the one `var` field;
 * the others are `const`.
 */
module InvalidTxn {
  import opened Ints

  /**
   * A transaction, `CTransactionRef`, as far as this core looks into it: its id
   * and its total serialized size.
   */
  datatype Transaction = Transaction(id: uint256, totalSize: nat)

  /** `InvalidTxnInfo::TxData`: what is kept of a transaction once it is truncated. */
  datatype TxData = TxData(txSize: nat, txid: uint256)

  /** The variant `mTransaction`. */
  datatype TxnPayload = FullTx(tx: Transaction) | Truncated(data: TxData) {

    /** `GetTxnIdHex`: the transaction id, from whichever alternative is held. */
    function TxnId(): (r: uint256)
      ensures FullTx? ==> r == tx.id
      ensures Truncated? ==> r == data.txid
    {
      match this
      case FullTx(t) => t.id
      case Truncated(d) => d.txid
    }

    /** `GetTotalTransactionSize`: the full transaction's size, or 0 once truncated. */
    function TotalTransactionSize(): (r: nat)
      ensures FullTx? ==> r == tx.totalSize
      ensures Truncated? ==> r == 0
    {
      if FullTx? then tx.totalSize else 0
    }
  }

  /**
   * What `TruncateTransactionDetails` leaves in `mTransaction`: a full transaction
   * becomes its size and id, a truncated one stays as it is.
   */
  function Truncate(p: TxnPayload): TxnPayload {
    match p
    case FullTx(t) => Truncated(TxData(t.totalSize, t.id))
    case Truncated(_) => p
  }

  /** Truncating a second time changes nothing. */
  lemma TruncateIdempotent(p: TxnPayload)
    ensures Truncate(Truncate(p)) == Truncate(p)
  {
  }

  /** Truncation keeps the id that `GetTxnIdHex` reports. */
  lemma TruncateKeepsTxnId(p: TxnPayload)
    ensures Truncate(p).TxnId() == p.TxnId()
  {
  }

  /**
   * After truncation the record reports no transaction size, while the summary
   * keeps the size the full transaction reported.
   */
  lemma TruncateKeepsSize(p: TxnPayload)
    ensures Truncate(p).Truncated?
    ensures Truncate(p).TotalTransactionSize() == 0
    ensures p.FullTx? ==> Truncate(p).data.txSize == p.TotalTransactionSize()
  {
  }

  /** `InvalidTxnInfo::BlockOrigin`: one source a block was received from. */
  datatype BlockOrigin = BlockOrigin(source: string, address: string, nodeId: int64)

  /** `InvalidTxnInfo::BlockDetails`; its default value is all zeros and no origins. */
  datatype BlockDetails = BlockDetails(origins: seq<BlockOrigin>, hash: uint256, height: int64, time: int64)

  /**
   * `TxSource`, the kind of caller that submitted a standalone transaction. Its
   * enumeration is declared outside this core, so it is kept as a number.
   */
  datatype TxSource = TxSource(code: nat)

  /** `InvalidTxnInfo::TxDetails`. */
  datatype TxDetails = TxDetails(src: TxSource, nodeId: int64, address: string)

  /** The variant `mDetails`: found in a block, or received as a transaction. */
  datatype Details = InBlock(block: BlockDetails) | AsTx(txDetails: TxDetails)

  /** The part of `CBlockIndex` the record reads: the block's hash, height and time. */
  datatype BlockIndex = BlockIndex(hash: uint256, height: int64, time: int64)

  /** `CValidationState::mode`. */
  datatype ValidationMode = ModeValid | ModeInvalid | ModeError

  /** `CValidationState`, reduced to its mode, reject code and reject reason. */
  datatype ValidationState = ValidationState(mode: ValidationMode, rejectCode: nat, rejectReason: string) {
    predicate IsValid() {
      mode == ModeValid
    }
  }

  class InvalidTxnInfo {
    var transaction: TxnPayload
    const validationState: ValidationState
    const details: Details
    const rejectionTime: int64

    /** The member-wise constructor: the transaction starts as the full one. */
    constructor (tx: Transaction, details: Details, rejectionTime: int64, state: ValidationState)
      ensures transaction == FullTx(tx)
      ensures this.details == details && this.rejectionTime == rejectionTime
      ensures validationState == state
    {
      transaction := FullTx(tx);
      this.details := details;
      this.rejectionTime := rejectionTime;
      validationState := state;
    }

    /**
     * The block constructor: block details with no origins and the given hash,
     * height and time; `now` stands for `std::time(nullptr)`.
     */
    constructor FromBlock(tx: Transaction, hash: uint256, height: int64, time: int64,
                          state: ValidationState, now: int64)
      ensures transaction == FullTx(tx)
      ensures details == InBlock(BlockDetails([], hash, height, time))
      ensures rejectionTime == now && validationState == state
    {
      transaction := FullTx(tx);
      details := InBlock(BlockDetails([], hash, height, time));
      rejectionTime := now;
      validationState := state;
    }

    /** The block-index constructor: as `FromBlock`, with the index's hash, height and time. */
    constructor FromBlockIndex(tx: Transaction, blockIndex: BlockIndex, state: ValidationState, now: int64)
      ensures transaction == FullTx(tx)
      ensures details == InBlock(BlockDetails([], blockIndex.hash, blockIndex.height, blockIndex.time))
      ensures rejectionTime == now && validationState == state
    {
      transaction := FullTx(tx);
      details := InBlock(BlockDetails([], blockIndex.hash, blockIndex.height, blockIndex.time));
      rejectionTime := now;
      validationState := state;
    }

    /**
     * `TruncateTransactionDetails`: replaces a full transaction by its size and id
     * and reports true; on a record already truncated it reports false and
     * changes nothing. Nothing but the transaction part ever changes.
     */
    method TruncateTransactionDetails() returns (truncated: bool)
      modifies this
      ensures truncated <==> old(transaction).FullTx?
      ensures transaction == Truncate(old(transaction))
      ensures transaction.TxnId() == old(transaction.TxnId())
      ensures old(transaction).FullTx? ==>
                transaction == Truncated(TxData(old(transaction).tx.totalSize, old(transaction).tx.id))
      ensures !truncated ==> transaction == old(transaction)
      ensures transaction.TotalTransactionSize() == 0
    {
      if !transaction.FullTx? {
        return false;
      }
      var tx := transaction.tx;
      transaction := Truncated(TxData(tx.totalSize, tx.id));
      return true;
    }
  }

  /**
   * The publisher seen from its producers: `Publish` hands a record over and the
   * record joins the sequence of records handed over so far. The queue, the
   * worker thread and the sinks behind it are not part of this model.
   */
  class InvalidTxnPublisher {
    var published: seq<InvalidTxnInfo>

    constructor ()
      ensures published == []
    {
      published := [];
    }

    method Publish(info: InvalidTxnInfo)
      modifies this
      ensures published == old(published) + [info]
    {
      published := published + [info];
    }
  }
}
