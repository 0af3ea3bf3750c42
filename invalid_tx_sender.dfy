/**
 * `CScopedInvalidTxSenderBlock`: taken at the start of validating a transaction
 * found in a block; when the scope ends it publishes one record if validation
 * failed, and nothing otherwise.
 */
module InvalidTxSender {
  import opened Ints
  import opened Wrappers
  import opened InvalidTxn
  import opened BlockOriginRegistry

  /**
   * The caller's `CValidationState`, which the validation code keeps updating
   * while the scope is open; the sender holds a reference to it.
   */
  class ValidationOutcome {
    var state: ValidationState

    constructor (state: ValidationState)
      ensures this.state == state
    {
      this.state := state;
    }
  }

  /** `BlockDetails{}`: no origins, a zero hash, height 0 and time 0. */
  const DEFAULT_BLOCK_DETAILS: BlockDetails := BlockDetails([], 0, 0, 0)

  class ScopedInvalidTxSenderBlock {
    const publisher: InvalidTxnPublisher
    var blockDetails: BlockDetails
    const transaction: Transaction
    const validationState: ValidationOutcome

    /**
     * Records the block's hash, height and time with no origins yet, or the
     * default details when there is no block index (a null `CBlockIndex*` in the C++).
     */
    constructor (publisher: InvalidTxnPublisher, tx: Transaction, blockIndex: Option<BlockIndex>,
                 state: ValidationOutcome)
      ensures this.publisher == publisher && transaction == tx && validationState == state
      ensures blockIndex.Some? ==>
                blockDetails == BlockDetails([], blockIndex.value.hash, blockIndex.value.height, blockIndex.value.time)
      ensures blockIndex.None? ==> blockDetails == DEFAULT_BLOCK_DETAILS
    {
      this.publisher := publisher;
      blockDetails :=
        match blockIndex
        case Some(index) => BlockDetails([], index.hash, index.height, index.time)
        case None => DEFAULT_BLOCK_DETAILS;
      transaction := tx;
      validationState := state;
    }

    /**
     * The destructor. With a valid outcome nothing is published. Otherwise the
     * block's origins are looked up in the registry and exactly one new record
     * is published: the full transaction, the block details with those origins,
     * the rejection time `now` (`std::time(nullptr)`) and the outcome as it is now.
     */
    method Close(registry: Registry, now: int64)
      modifies this, publisher
      ensures validationState.state.IsValid() ==>
                publisher.published == old(publisher.published) && blockDetails == old(blockDetails)
      ensures !validationState.state.IsValid() ==>
                && blockDetails == old(blockDetails).(origins := OriginsFor(registry.entries, old(blockDetails).hash))
                && |publisher.published| == |old(publisher.published)| + 1
                && publisher.published[..|old(publisher.published)|] == old(publisher.published)
                && var info := publisher.published[|old(publisher.published)|];
                   && fresh(info)
                   && info.transaction == FullTx(transaction)
                   && info.details == InBlock(blockDetails)
                   && info.rejectionTime == now
                   && info.validationState == validationState.state
    {
      if validationState.state.IsValid() {
        return;
      }
      var origins := registry.GetOrigins(blockDetails.hash);
      blockDetails := blockDetails.(origins := origins);
      var info := new InvalidTxnInfo(transaction, InBlock(blockDetails), now, validationState.state);
      publisher.Publish(info);
    }
  }

  /**
   * A guarded validation: the scope is opened, the validation code settles the
   * outcome (`finalState`), and the scope ends. Exactly one record is published
   * when the final outcome is not valid, and none when it is.
   */
  method ValidateInScope(publisher: InvalidTxnPublisher, registry: Registry, tx: Transaction,
                         blockIndex: Option<BlockIndex>, outcome: ValidationOutcome,
                         finalState: ValidationState, now: int64)
    modifies outcome, publisher
    ensures outcome.state == finalState
    ensures |publisher.published| == |old(publisher.published)| + (if finalState.IsValid() then 0 else 1)
    ensures publisher.published[..|old(publisher.published)|] == old(publisher.published)
  {
    var sender := new ScopedInvalidTxSenderBlock(publisher, tx, blockIndex, outcome);
    outcome.state := finalState;
    sender.Close(registry, now);
  }
}
