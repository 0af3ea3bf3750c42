# Invalid-transaction reporting and script numbers, modelled in Dafny

This project models two pieces of a Bitcoin SV full node.

**The invalid-transaction record and its block context** (`src/invalid_txn_publisher.h`).
- `InvalidTxnInfo` describes one rejected transaction. It holds either the full transaction or, once truncated, only the transaction's size and id. It also holds the origin (the block the transaction was found in, or the peer or RPC caller that sent it), the validation outcome and the rejection time.
- Truncation is the only change a record undergoes after construction. It is modelled as a class method. The transaction is the class's one `var` field; the other fields are `const`.
- `CScopedBlockOriginRegistry` is the process-wide table of (block hash, origin) entries. A scope object adds one entry when created and erases exactly that entry when it ends.
  - The model passes the table in explicitly (class `Registry`) instead of using a static member.
  - The C++ scope keeps a list iterator to its entry. The model gives each entry a unique handle instead.
- `CScopedInvalidTxSenderBlock` is the scoped sender. On scope exit it publishes exactly one record if the validation outcome is not valid, and nothing otherwise. The published record carries the origins registered for the block at that moment.
- The publisher is seen only from its producers: a sequence of the records handed to `Publish`.

**`CScriptNum`** (`src/script/script_num.cpp`) is the script interpreter's number. Its value is a variant: an `int64_t` or an unbounded `bsv::bint`.
- The datatype `NumValue` is that variant. The class `ScriptNum` holds it, and the compound operators update it in place.
- The read-only operators (`==`, `<`, `equal_index`, unary `-`, `getint`, `to_size_t`) are functions on `NumValue`.
- The byte-vector constructor throws. It is modelled as the function `FromBytes`, which returns a `Result`.
- C++ `/` and `%` truncate toward zero. They are written out as `TruncDiv` and `TruncRem`, with the division identity proved.
- `int64_t` `&` is two's-complement AND. It is written out bit by bit over 64 positions (`AndBits`).

Files:
- `ints.dfy`: the C++ integer widths as ranges.
- `wrappers.dfy`: `Option` and `Result`.
- `invalid_txn_info.dfy`: the record and the publisher.
- `block_origin_registry.dfy`: the registry and the registration scope.
- `invalid_tx_sender.dfy`: the scoped sender.
- `script_num.dfy`: the script number.

Registry scopes take `address` and `nodeId` with the header's defaults ("" and 0).

Two behaviours of the header worth noting:
- A truncated record reports a total size of 0: `GetTotalTransactionSize` returns 0 for the `TxData` alternative (`src/invalid_txn_publisher.h:110`).
- With no block index, the sender's block details keep their default zero hash, and on scope exit it still looks up the origins of `blockDetails.hash` (`src/invalid_txn_publisher.h:258`). The result is empty unless something registered that zero hash.

## Model

| member | source | states |
|---|---|---|
| InvalidTxn.InvalidTxnInfo.constructor | src/invalid_txn_publisher.h:58-67 | a new record holds the full transaction and exactly the given details, rejection time and validation state |
| InvalidTxn.InvalidTxnInfo.FromBlock | src/invalid_txn_publisher.h:69-80 | the block constructor gives block details with no origins and the given hash, height and time; the rejection time is the supplied clock reading |
| InvalidTxn.InvalidTxnInfo.FromBlockIndex | src/invalid_txn_publisher.h:82-92 | as FromBlock, with the hash, height and time read from the block index |
| InvalidTxn.TxnPayload.TxnId | src/invalid_txn_publisher.h:94-100 | the reported id is the full transaction's id, or the id kept in the truncated summary |
| InvalidTxn.TxnPayload.TotalTransactionSize | src/invalid_txn_publisher.h:102-111 | the reported size is the full transaction's total size while the record holds it, and 0 once truncated |
| InvalidTxn.InvalidTxnInfo.TruncateTransactionDetails | src/invalid_txn_publisher.h:113-125 | returns true exactly when the record held a full transaction; afterwards the record holds a summary with that transaction's size and id; on an already truncated record it returns false and changes nothing; the id is unchanged; the reported size is 0; the other fields are `const` and cannot change |
| InvalidTxn.TruncateIdempotent | src/invalid_txn_publisher.h:116-119 | truncating a truncated record changes nothing |
| InvalidTxn.TruncateKeepsTxnId | src/invalid_txn_publisher.h:122 | truncation keeps the id that GetTxnIdHex reports |
| InvalidTxn.TruncateKeepsSize | src/invalid_txn_publisher.h:102-125 | after truncation the record reports size 0, and the summary keeps the size the full transaction reported |
| InvalidTxn.InvalidTxnPublisher.Publish | src/invalid_txn_publisher.h:190-191 | a published record joins the end of the sequence of records handed to the publisher; earlier records are unchanged |
| BlockOriginRegistry.Registry.GetOrigins | src/invalid_txn_publisher.h:222 | the scan returns exactly the origins of the entries registered for the hash, in registration order |
| BlockOriginRegistry.NoOriginsIffUnregistered | src/invalid_txn_publisher.h:222 | the origins for a hash are empty exactly when no entry for that hash is registered |
| BlockOriginRegistry.OriginsForConcat | src/invalid_txn_publisher.h:201-222 | the lookup over a table made of two parts is the lookup over the first part followed by the lookup over the second |
| BlockOriginRegistry.RegisteredOriginsInOrder | src/invalid_txn_publisher.h:210-222 | after entries for a hash are added to a table, the lookup returns the old origins followed by the new ones in the order they were added |
| BlockOriginRegistry.ScopedBlockOrigin.constructor | src/invalid_txn_publisher.h:210-213 | creating a scope appends exactly one entry, with the given hash, source, address and node id, under a handle no other entry carries; the table stays well-formed |
| BlockOriginRegistry.ScopedBlockOrigin.Close | src/invalid_txn_publisher.h:203-215 | ending a scope removes exactly the entry it registered, found through its handle, and leaves every other entry in its place and order |
| BlockOriginRegistry.WithoutRemovesOne | src/invalid_txn_publisher.h:203-215 | with unique handles, erasing by the handle of entry i leaves the table minus exactly entry i |
| BlockOriginRegistry.WithoutAbsent | src/invalid_txn_publisher.h:203-215 | erasing a handle that no entry carries leaves the table unchanged |
| BlockOriginRegistry.OriginsAfterErase | src/invalid_txn_publisher.h:215-222 | after a scope ends, the lookup for its hash returns one origin fewer, and the lookup for every other hash is unchanged |
| BlockOriginRegistry.RegisterThenErase | src/invalid_txn_publisher.h:195-198 | registering an entry with a fresh handle and then erasing it restores the table exactly |
| BlockOriginRegistry.WithBlockOriginScope | src/invalid_txn_publisher.h:195-198 | with two overlapping scopes registered for the same block, the lookup while both are open returns the older origins followed by the outer and then the inner origin; ending the inner scope leaves the outer one registered, and once both have ended the table is exactly as before |
| InvalidTxSender.ScopedInvalidTxSenderBlock.constructor | src/invalid_txn_publisher.h:236-249 | with a block index, the sender keeps the block's hash, height and time and no origins; without one, it keeps default (zero) block details |
| InvalidTxSender.ScopedInvalidTxSenderBlock.Close | src/invalid_txn_publisher.h:251-260 | with a valid outcome, nothing is published; otherwise exactly one fresh record is appended, holding the full transaction, the block details with the origins registered for the block's hash at that moment, the current time and the current outcome |
| InvalidTxSender.ValidateInScope | src/invalid_txn_publisher.h:225-260 | a guarded validation publishes one record when its final outcome is invalid and none when it is valid |
| ScriptNumbers.FromBytes | src/script/script_num.cpp:16-49 | the result is an overflow error exactly when the vector exceeds the size limit; it is a min-encode error exactly when the flag is set and the vector is within the limit but not minimally encoded; otherwise it succeeds; the empty vector is 0; a success is the big integer exactly when big_int is set |
| ScriptNumbers.NumValue.EqualIndex | src/script/script_num.cpp:71-74 | true exactly when both operands use the same representation |
| ScriptNumbers.Equal | src/script/script_num.cpp:76-94 | true exactly when the mathematical values are equal, also across the two representations |
| ScriptNumbers.Less | src/script/script_num.cpp:96-115 | true exactly when the first mathematical value is smaller, also across the two representations |
| ScriptNumbers.CompareIsTotalOrder | src/script/script_num.cpp:76-115 | for any two numbers exactly one of `<`, `==`, `>` holds, and `<` is transitive |
| ScriptNumbers.ScriptNum.AndAssign | src/script/script_num.cpp:51-63 | requires the same representation and keeps it; on int64 the result is the two's-complement AND of the two values |
| ScriptNumbers.ScriptNum.AndAssignInt64 | src/script/script_num.cpp:65-69 | AND with a plain int64 in either representation, keeping the representation |
| ScriptNumbers.And64 | src/script/script_num.cpp:57 | an AND with a non-negative operand lies between 0 and that operand; the AND of two negative values is negative |
| ScriptNumbers.And64Idempotent | src/script/script_num.cpp:57 | x & x == x |
| ScriptNumbers.And64Commutative | src/script/script_num.cpp:57 | x & y == y & x |
| ScriptNumbers.And64AllOnes | src/script/script_num.cpp:57 | x & -1 == x |
| ScriptNumbers.AndBitsAtMost | src/script/script_num.cpp:57 | a bitwise AND is no larger than either operand |
| ScriptNumbers.AndBitsTopBit | src/script/script_num.cpp:57 | the top bit of the AND is set when it is set in both operands, which makes the AND of two negative int64 values negative |
| ScriptNumbers.GuardsAreExact | src/script/script_num.cpp:122-132 | the overflow guards asserted by `+=` and `-=` admit exactly the operands whose exact sum or difference fits int64 |
| ScriptNumbers.ScriptNum.AddAssign | src/script/script_num.cpp:117-139 | requires the same representation and, for int64, the source's overflow guard; the new value is the exact sum and the representation is kept |
| ScriptNumbers.ScriptNum.SubAssign | src/script/script_num.cpp:141-163 | requires the same representation and, for int64, the source's overflow guard; the new value is the exact difference and the representation is kept |
| ScriptNumbers.ScriptNum.MulAssign | src/script/script_num.cpp:165-177 | the new value is the exact product and the representation is kept |
| ScriptNumbers.ScriptNum.DivAssign | src/script/script_num.cpp:179-191 | the new value is the quotient rounded toward zero and the representation is kept |
| ScriptNumbers.ScriptNum.ModAssign | src/script/script_num.cpp:193-205 | the new value is the remainder with the sign of the dividend and the representation is kept |
| ScriptNumbers.TruncDivRem | src/script/script_num.cpp:179-205 | the C++ quotient and remainder satisfy y*(x/y) + x%y == x; the remainder is smaller than the divisor in magnitude and carries the dividend's sign; the quotient is no larger than the dividend in magnitude |
| ScriptNumbers.TruncDivRemInt64 | src/script/script_num.cpp:184-185 | on int64 operands both results fit int64 unless the division is INT64_MIN / -1 |
| ScriptNumbers.TruncDivMinOverflows | src/script/script_num.cpp:184-185 | INT64_MIN / -1 is the one quotient that does not fit int64 |
| ScriptNumbers.Negate | src/script/script_num.cpp:207-211 | unary minus yields the negated value in the same representation |
| ScriptNumbers.NegateInvolutive | src/script/script_num.cpp:207-211 | negating twice gives back the original number |
| ScriptNumbers.GetInt | src/script/script_num.cpp:219-231 | requires the int64 representation; the result is an int that is the value itself or, when the value lies outside the int range, the bound on the value's side |
| ScriptNumbers.GetIntMonotonic | src/script/script_num.cpp:219-231 | saturating to int keeps the order of values |
| ScriptNumbers.ToSizeT | src/script/script_num.cpp:248-262 | requires a non-negative value; the result is that same value as an unsigned 64-bit size |
| ScriptNumbers.ScriptNum.constructor | src/script/script_num.cpp:207-211 | the number built from an int64 or a big integer holds that alternative (the cited lines build a number this way; the `CScriptNum(int64_t)` and `CScriptNum(bint)` constructors are declared in `src/script/script_num.h`, which is not part of this model) |

## Left out

- The publisher's worker thread, its byte-budgeted queue, the sink list and its mutex, `Initialize`, `Stop`, and the file and ZMQ sinks. This is concurrency and I/O, and the implementations are not part of this model. `Publish` only appends to the sequence of handed-over records. Truncation of queued records happens behind `Publish`, so it is not modelled there.
- The registry's mutex: the model is sequential.
- `ToJson`, the `Put*` helpers and `DynamicMemoryUsage`: they are declared only, and they deal with JSON output and memory accounting.
- `std::time(nullptr)` is a parameter (`now`) of the constructors and of the sender's `Close`.
- `uint256::GetHex`: `TxnId` returns the 256-bit id itself, not its hex rendering.
- `CValidationState`, `CTransaction` and `CBlockIndex` are reduced to the parts this core reads (mode, reject code and reason; id and total size; hash, height and time).
- The C++ destructors are explicit `Close` methods. The model does not enforce that they run exactly once per scope.
- `CScriptNum::getvch`, `operator<<`, and the byte-level routines of `int_serialization.h`: that file is not part of this model. `FromBytes` takes the two deserializers and the minimal-encoding test as parameters (`IntSerialization`).
- `bsv::bint` is an unbounded `int`. Its internals are left out.
- ScriptNumbers.ScriptNum.AndAssign: on the big-integer representation, the AND is a parameter `bigAnd`, because the bitwise semantics of `bsv::bint` are not part of this model.
- ScriptNumbers.ScriptNum.AndAssignInt64: as AndAssign, the big-integer AND is the parameter `bigAnd`.
- ScriptNumbers.ScriptNum.MulAssign: requires the int64 product to fit. C++ signed overflow is undefined, and the source has no guard here.
- ScriptNumbers.ScriptNum.DivAssign: requires a non-zero divisor, and on int64 it excludes INT64_MIN / -1 (both undefined in C++). The big-integer quotient is taken to truncate toward zero, like the int64 one.
- ScriptNumbers.ScriptNum.ModAssign: the same requirements as DivAssign. The big-integer remainder is taken to have the sign of the dividend.
- ScriptNumbers.Negate: on int64 it requires a value other than INT64_MIN, whose negation is undefined in C++.
- ScriptNumbers.ToSizeT: on the big-integer representation it requires the value to fit in 64 bits, because what `bsv::to_size_t` does with larger values is not part of this model.
- The int64 `&` is modelled bit by bit on mathematical integers rather than on `bv64`, to keep the proofs within the solver's limits. It is the same two's-complement AND.
- The bodies of the registry scope's constructor and destructor and of `GetOrigins` are in a `.cpp` file that is not part of this model. Two behaviours are taken from the header, whose only evidence is the `std::list` type of the table and the comment at `src/invalid_txn_publisher.h:195-198`: a new entry is added at the end of the list, and the lookup scans the list in order.
- `TxData::txSize` is an `int64_t` in the source and a `nat` here. A total size never comes near that bound.
