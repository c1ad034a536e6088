# Cosmos EVM: a verified model of its state machines and codecs

This Dafny project models six parts of the Cosmos EVM repository and proves what they are meant to keep.
`dafny verify dfyconfig.toml` covers the whole project.

| part | modules |
|---|---|
| transaction index: record codec, keys, block indexer, command, service | `Machine`, `Varint`, `Wire`, `UnknownFields`, `WireLaws`, `WireExact`, `TxCodec`, `Lex`, `KvKeys`, `KvIndexer`, `BlockRecords`, `KvLookup`, `Sweeps`, `Traversal`, `History`, `Service`, `Gaps`, `Restarts` |
| EIP-712 schemas: flattening a payload, building its type map | `Text`, `Json`, `Schema`, `SchemaLaws`, `SchemaMeaning`, `SchemaNames`, `TypeRegistry`, `Flatten` |
| allowances kept inside spend limits (ERC-20 and ICS-20 precompiles) | `Common`, `Coins`, `Erc20`, `Erc20Precompile`, `Ics20`, `Ics20Limits` |
| dynamic fee checker | `FeeChecker` |
| nesting limiter for authz messages | `Authz` |
| nonces in the EVM ante handler | `EvmAnte` |

The form follows the source. Loops that update variables, buffers, maps or stores are methods and classes
(`TxResultMessage`, `KVIndexer`, `Registry`, `Precompile`, `TransferAuthorization`, `AccountKeeper`), each
proved against a specification function; the theorems are lemmas about those functions. The two goroutines
of the indexer service are a state machine over their atomic steps.

## Main results

- **Codec.** The backward writer fills exactly the computed size; decoding gives every message back,
  negative numbers included. Decoding merges with the last value winning. Skipping accepts exactly the
  grammar of well-formed fields, with groups nested to any depth and varints of any length, and such a
  field with an unknown number makes no difference between any bytes that decode and any that follow.
  Whatever decodes is a stream of such and of the seven known fields. Bits are gathered with a modelled
  `|=`, errors and the half-read message after them are exact.
- **Index.** Each message that is to be indexed has one record, with its own gas and outcome and the sum over
  its transaction so far. Keys sort as (height, index), so the ends of the key range are the least and
  greatest indexed heights. After any sequence of blocks, also with a height indexed again, a lookup by (height, index) gives
  the record of the last block that has one there, exactly if no record indexed later has its hash. A failed
  block leaves the database as it was.
- **Command.** It succeeds exactly if every block ahead is there and can be written, and else stops at the
  first one of which that is not so. However often a backward or forward run is cut short, the next full run ends in the database
  of one uninterrupted run, although empty blocks leave no trace to resume from. While the chain grows, that
  is a forward run to the last height, and a backward run from the height that the first run to index
  anything had found. From an empty database both directions agree on a hash exactly if it occurs in one
  block only.
- **Service.** Under every interleaving no wakeup is lost, and the heights handed to the indexer are
  gap-free, each once. Under every schedule its own steps come to an end, and then every announced block
  was handed over, without any timeout.
- **Gaps.** After any mixture of runs of the command, in either direction and each cut anywhere, and of the
  service there are gaps between indexed blocks exactly if there were some before or a service made one. One
  that resumed from the last indexed block makes a gap exactly if it indexes a block after one with records
  that failed; one that started on an empty index, exactly if it indexes one on both sides of such a block.
  Without failures, a service that starts where a forward run would leaves the database of that run.
- **EIP-712.** A schema is closed, redefines nothing, describes every message field by field, names its types
  after messages and paths, stays the same when a message is repeated, and does not depend on the order of
  JSON keys. Flattening determines the original exactly if there is a message.
- **Allowances.** Over every run of calls, spend limits stay sorted, positive and non-empty, and each
  allowance is what a plain ERC-20 ledger holds. The ICS-20 loop that shifts its own backing array while
  ranging over it subtracts exactly the amount.
- **Fees, authz, nonces.** The charge lies between base fee and offer, with the exact conditions for refusal
  and for charging either; without a dynamic fee option it is the offer. The limiter accepts exactly the trees given by a sum of ranks along paths, hence at most 31
  nodes. A transaction is accepted exactly if all messages come in the turn of their nonces and the declared
  sums are right, and the nonces of each sender are consecutive over every run.

## Where the code differs from what is said about it

- `index-eth-tx backward` on an empty database: the help text (server/indexer_cmd.go:24) says that it starts
  from the latest block. The loop starts one below, and `Traversal.BackwardCoverage` proves that the latest
  block is the only one left out.
- The two directions exist "to avoid creating gaps" (server/indexer_cmd.go:23), which they do. The service,
  however, only logs a failure to index a block and goes on (server/indexer_service.go:103-106). Once there
  are indexed blocks on both sides of it, the block is lost for good: `Gaps.MissedForGood` proves that no
  later run of the command or of the service comes back to it. For a service that resumed from the last
  indexed block the next success is enough, and `Gaps.ServiceLeavesGap` gives the run, wherever the next two
  blocks have records. On an empty index the same failures leave no gap, and a backward run comes back to
  the block (`Gaps.FirstStartRecovers`).
- An all-zero record marshals to no bytes, which a lookup reads as "not found" (`KvLookup.LookupByHash`).
  It can arise only at height 0.
- Records with the same hash, in one block or in several: the index entry of the earlier one leads to the
  one indexed last. `History.HistoryAgrees` gives the exact condition; `History.RunsAgree` says when the
  two directions of the command therefore differ.
- Flattening does not always determine the original: every payload without messages has a twin, with a null
  `msgs` for an empty one or the other way round (`Flatten.NullAndEmptyCollide`). `Flatten.DeterminedExactly`
  proves that it does if and only if there is a message.
- Where the fee cap binds, truncation can lose whole units once the gas exceeds 10^18
  (`FeeChecker.TruncationLoses`); `FeeChecker.CapBindsExactly` gives the exact condition.
- An ICS-20 allowance that was reduced to zero cannot be raised again (`Ics20.SpentIsGone`).
- ERC-20 calls that EIP-20 allows and the precompile refuses: approving oneself and transferring zero
  (`Erc20.RefusedCalls`), and approving zero, exactly where the spender has a grant that does not list the
  denomination (`Erc20.ApproveZero`, at a concrete grant in `Erc20.ApproveZeroRefused`). The comment at
  precompiles/erc20/approve.go:32 says that an existing authorization is deleted there.

## Model

| member | source | states |
|---|---|---|
| Varint.SovIsLength | types/indexer.pb.go:213-215 | the size computed from the bit length is the length of the base 128 encoding, for every number |
| Varint.ReadEncode64 | types/indexer.pb.go:172-182 | every 64-bit value is read back exactly from its encoding, whatever bytes follow |
| Varint.ReadPrefix | types/indexer.pb.go:225-239 | a successful varint read depends on no byte after the varint |
| Varint.ReadLoop | types/indexer.pb.go:225-239 | the shifting loop returns the varint cut to the accumulator's width and its length, or the error for an overlong or truncated one and what was gathered by then, never reading past the end |
| Machine.OrBits | types/indexer.pb.go:234 | the modelled `or` is the or of each pair of bits |
| Varint.OrShift | types/indexer.pb.go:234 | gathering `x << shift` by `or` in a width of any number of bits adds `x` at the shift and drops what lies beyond, given that the bits gathered so far lie below the shift |
| Varint.Gather | types/indexer.pb.go:232-237 | one byte keeps the bits gathered below the next shift, and ends or continues the read |
| Varint.EncodeVarint | types/indexer.pb.go:172-182 | the encoding ends just before the offset, and every other byte of the buffer keeps its value |
| TxCodec.SizeIsLength | types/indexer.pb.go:183-211 | the computed message size is the number of marshalled bytes |
| TxCodec.TxResultMessage.MarshalToSizedBuffer | types/indexer.pb.go:124-170 | the backward writer puts exactly the marshalled bytes at the end of the buffer and keeps all bytes before them |
| TxCodec.TxResultMessage.Marshal | types/indexer.pb.go:109-117 | the result is the marshalled message, as long as the computed size |
| Wire.SkipBy | types/indexer.pb.go:403-480 | skipping ends for every byte string; a success consumes at least one byte and ends below 2^63, so that no position wraps |
| TxCodec.SkipLoop | types/indexer.pb.go:403-480 | the loop with its depth counter and wrapping positions computes the skip function, indexing only inside the bytes |
| UnknownFields.SkipUnknown | types/indexer.pb.go:403-480 | every field of the grammar, with groups nested to any depth and varints of any length, is skipped to its exact end |
| UnknownFields.SkippedIsField | types/indexer.pb.go:403-480 | whatever is skipped is a field of the grammar |
| UnknownFields.SkipExactly | types/indexer.pb.go:403-480 | skipping passes over a prefix if and only if that prefix is one well-formed field |
| TxCodec.TxResultMessage.ReadField | types/indexer.pb.go:253-381 | the value of a known field is stored cut to its width; a failure leaves the bits read so far in it, except in `Failed` |
| TxCodec.TxResultMessage.UnmarshalField | types/indexer.pb.go:222-396 | one turn sets the field that the bytes name, or skips an unknown one, or fails with the exact error and message |
| TxCodec.TxResultMessage.Unmarshal | types/indexer.pb.go:219-402 | the loop leaves the message that decoding gives, starting from what it held before; a failure reports the exact error, position overflow included, and leaves the message half-read |
| Wire.DecodeConcat | types/indexer.pb.go:219-402 | decoding a concatenation is decoding the second part into the result of the first |
| WireLaws.DecodeMarshalled | types/indexer.pb.go:219-402 | decoding a marshalled message into any other overrides it by the non-zero fields |
| WireLaws.RoundTrip | types/indexer.pb.go:109-402 | marshalling and decoding into a fresh message gives the message back, negative numbers included |
| WireLaws.Merge | types/indexer.pb.go:219-402 | two marshalled messages in a row decode to the first overridden by the non-zero fields of the second |
| WireLaws.DecodeStream | types/indexer.pb.go:219-402 | a stream of known and unknown fields in any order, with varints of any length, decodes to the known ones applied in order |
| WireLaws.UnknownIgnored | types/indexer.pb.go:382-395 | an unknown field after any bytes that decode, and before any bytes at all, changes neither message nor error |
| WireLaws.UnknownFieldsIgnored | types/indexer.pb.go:382-395 | the same for any number of unknown fields in a row |
| WireLaws.GrammarIsUnknown | types/indexer.pb.go:382-480 | every field of the grammar with a number above 7 is such a field |
| WireLaws.EmptyOnlyForZero | types/indexer.pb.go:124-170 | only the all-zero message marshals to no bytes |
| WireExact.ReadExactly | types/indexer.pb.go:225-239 | a varint ends at the first of its ten bytes without the high bit, with seven bits of each byte; else it is truncated or overlong, and leaves what was gathered |
| WireExact.DecodedIsStream | types/indexer.pb.go:219-402 | whatever decodes is a stream of known and unknown fields, and decodes to its meaning |
| WireExact.DecodesExactly | types/indexer.pb.go:219-402 | bytes decode if and only if they are such a stream |
| WireExact.Refusals | types/indexer.pb.go:240-257 | the error for an end group, an illegal field number, a wrong wire type and an unreadable value, each with the message it leaves |
| WireExact.SkipRefusals | types/indexer.pb.go:403-480 | the error for an illegal wire type, a group that was not opened or is not closed, an unreadable or negative length |
| WireExact.FirstBadField | types/indexer.pb.go:219-402 | after good fields, decoding fails as the first bad one does, with the message read by then |
| WireExact.FieldMeanings | types/indexer.pb.go:252-381 | each of the seven tags sets its own field, cut to the width of that field, and no other |
| KvKeys.BigEndianOrder | indexer/kv_indexer.go:170-174 | big-endian numbers of one width compare as numbers, and are equal only for equal numbers |
| KvKeys.TxIndexKeyOrder | indexer/kv_indexer.go:170-174 | index keys compare as (height, index) read as unsigned numbers, and are injective |
| KvKeys.TxIndexKeyOrderNonNegative | indexer/kv_indexer.go:170-174 | without negative numbers key order is the order of (height, index) |
| KvKeys.TxHashKeyInjective | indexer/kv_indexer.go:165-167 | hash keys are injective |
| KvKeys.ParseTxIndexKey | indexer/kv_indexer.go:227-233 | the height is read back from every index key |
| KvKeys.KeyLayout | indexer/kv_indexer.go:165-174 | hash keys are byte 1 and the hash; index keys are byte 2, then height and index as numbers of eight bytes |
| KvKeys.FirstBlockIsLeast | indexer/kv_indexer.go:190-200 | the first block is the least height with an indexed transaction, and -1 exactly if there is none |
| KvKeys.LastBlockIsGreatest | indexer/kv_indexer.go:177-187 | the last block is the greatest such height, and -1 exactly if there is none |
| KvIndexer.PositionsExact | indexer/kv_indexer.go:60-117 | the indexed messages are exactly those of passed transactions with event data or a failure code, each once, in (tx, msg) order |
| BlockRecords.RecordsInOrder | indexer/kv_indexer.go:60-119 | a block has one record for each message of a failed transaction, and for each of a successful one whose events were found, in order |
| BlockRecords.RecordsExact | indexer/kv_indexer.go:83-118 | the j-th record has the hash, the positions and the Ethereum index j; gas and outcome are those of the events, and the gas limit and a failure for a failed transaction; the cumulative gas is the sum over its transaction so far |
| KvIndexer.KVIndexer.IndexMsg | indexer/kv_indexer.go:83-118 | one message appends its record (`BlockRecords.RecordsExact`), with gas accumulated over its transaction, or reports which write failed |
| KvIndexer.KVIndexer.IndexTx | indexer/kv_indexer.go:82-119 | the inner loop extends the batch by the records of one transaction |
| KvIndexer.KVIndexer.Collect | indexer/kv_indexer.go:60-119 | the outer loop collects exactly the block's records, and fails exactly if one of their writes does |
| KvIndexer.KVIndexer.IndexBlock | indexer/kv_indexer.go:52-124 | succeeds exactly if no write fails; then the database holds the block's records (`BlockRecords.RecordsExact`), otherwise nothing is stored |
| KvLookup.LookupByHash | indexer/kv_indexer.go:137-150 | a lookup by hash finds the block's last record with that hash, and is unchanged for every other hash |
| KvLookup.LookupByIndex | indexer/kv_indexer.go:153-162 | a lookup by (height, i) agrees with the lookup by the hash of the i-th record |
| KvLookup.OtherIndicesKept | indexer/kv_indexer.go:216-225 | index entries of other heights and of positions past the block are kept |
| KvLookup.IndexAgreesWithList | indexer/kv_indexer.go:52-162 | right after its block, the lookup at position i gives the i-th record if and only if no later record of the block has its hash |
| KvLookup.BlockReadBack | indexer/kv_indexer.go:52-162 | with distinct hashes a block is read back exactly, by index and by hash, with nothing past its end |
| History.LastBlockDecides | indexer/kv_indexer.go:137-150 | after any sequence of blocks, a lookup by hash finds the record of the last block that has it |
| History.HistoryAgrees | indexer/kv_indexer.go:52-162 | after any sequence of blocks, and for the last block of a height that has an i-th record, the lookup at (height, i) gives that record if and only if no record indexed later, in this or another block, has its hash, and it is not the all-zero one |
| KvLookup.IndexingAddsHeight | indexer/kv_indexer.go:52-124 | indexing adds the block's height exactly if it has a record, and no other height |
| KvLookup.IndexingKeepsIndexDb | indexer/kv_indexer.go:216-225 | all keys of the index range stay keys of non-negative heights and indices |
| Sweeps.Sweep.ResumeAnywhere | server/indexer_cmd.go:85-112 | a sweep cut after any number of steps and started again ends as the uncut sweep, for every lawful sweep |
| Sweeps.Sweep.RestartsConverge | server/indexer_cmd.go:85-112 | the same for any sequence of cuts |
| Traversal.BackwardLawful | server/indexer_cmd.go:85-98 | the backward run keeps the database well formed, empty blocks leave it alone, and the next start is below the last block that left a trace |
| Traversal.ForwardLawful | server/indexer_cmd.go:99-112 | the same for the forward run |
| Traversal.BackwardRestartsConverge | server/indexer_cmd.go:85-98 | a backward run cut anywhere, any number of times, ends with the database of one full run |
| Traversal.ForwardRestartsConverge | server/indexer_cmd.go:99-112 | the same for forward runs |
| Restarts.ForwardGrowing | server/indexer_cmd.go:99-112 | forward runs cut anywhere, each against the height the chain had by then, end with the database of one full run to the last height |
| Restarts.BackwardGrowing | server/indexer_cmd.go:85-98 | backward runs cut anywhere, each against its own height, end with the database of one full run from the height of the first of them that changed the index |
| Restarts.TopIrrelevant | server/indexer_cmd.go:85-93 | on an index with a block the height of the chain makes no difference to a backward run |
| Traversal.BackwardCoverage | server/indexer_cmd.go:85-98 | from an empty database a full backward run covers exactly the blocks with records below the latest one |
| Traversal.ForwardCoverage | server/indexer_cmd.go:99-112 | from an empty database a full forward run covers exactly the blocks with records |
| History.BackwardHistory | server/indexer_cmd.go:85-98 | from an empty database a full backward run is the history of the blocks from the second latest down to the first |
| History.ForwardHistory | server/indexer_cmd.go:99-112 | a full forward run is the history of all blocks upward |
| History.OrderDecides | server/indexer_cmd.go:85-112 | both runs give the same answer for a hash they have met if and only if it occurs in one block only |
| History.RunsAgree | server/indexer_cmd.go:85-112 | they agree on the i-th record of a block that both cover if and only if its hash occurs in no other block, and past its end both find nothing |
| Traversal.IndexOne | server/indexer_cmd.go:68-82 | succeeds exactly if the block is there and its write does not fail; then it is indexed, else the database is left alone |
| Traversal.Backward | server/indexer_cmd.go:85-98 | succeeds exactly if the first block can be read and every block below it is there and can be written; then the whole sweep is done, and else its cut before the first block of which that is not so |
| Traversal.Forward | server/indexer_cmd.go:99-112 | the same for the blocks above the last one, up to the top |
| Service.InvInductive | server/indexer_service.go:61-108 | every atomic step of either goroutine keeps the invariant |
| Service.Safety | server/indexer_service.go:61-108 | in every reachable state no wakeup is lost, the indexed heights are gap-free and announced, and the latest block is the highest one seen |
| Service.IndexedExactlyOnce | server/indexer_service.go:89-107 | the heights handed to the indexer are exactly those between start and last block, none twice, whatever fetches fail |
| Service.StartsAfter | server/indexer_service.go:76-82 | the service goes on after the last indexed block; on an empty index, after the highest block that it knew of when it started |
| Service.StaleHeader | server/indexer_service.go:61-74 | a header that is not new changes nothing and wakes nobody |
| Service.NeverStuck | server/indexer_service.go:76-88 | while an announced block is not indexed, a step of the service itself is enabled |
| Service.QuietMeans | server/indexer_service.go:61-88 | no such step is enabled exactly when the loop waits with nothing pending, and then it is caught up |
| Service.InternalProgress | server/indexer_service.go:61-108 | each step of the service itself, whichever is taken, lowers a rank and keeps the announced height |
| Service.InternalRun | server/indexer_service.go:61-108 | any run of such steps is no longer than the rank of the state in which it begins |
| Service.EveryScheduleCatchesUp | server/indexer_service.go:61-108 | under every schedule such steps come to an end, and then all announced blocks were handed over |
| Service.CatchesUp | server/indexer_service.go:61-108 | such a schedule exists from every reachable state |
| Gaps.BackwardMakesNone | server/indexer_cmd.go:85-98 | a backward run cut anywhere leaves no block with records out between indexed ones, if none was left out before |
| Gaps.ForwardMakesNone | server/indexer_cmd.go:99-112 | the same for a forward run |
| Gaps.MissedForGood | server/indexer_cmd.go:85-112 | a height missed between two indexed ones stays missed, whatever runs of the command and of the service follow |
| Gaps.GapsNeitherMadeNorFilled | server/indexer_cmd.go:23-29 | after any sequence of command runs in either direction there are gaps if and only if there were some before |
| Gaps.GapsExactly | server/indexer_cmd.go:84-112 | after any mixture of command runs, each cut anywhere, and of services there is no gap if and only if there was none before and none of the services made one on the index it found |
| Gaps.ServiceIndexes | server/indexer_service.go:89-107 | in every reachable state the indexed heights are the old ones and the passed blocks with records on which indexing did not fail |
| Gaps.ServiceBegins | server/indexer_service.go:76-82 | the last indexed block if there is one, and the latest block on an empty index, is where a run of the service starts |
| Gaps.ServiceStartsAt | server/indexer_service.go:76-82 | a service that reads the last block of the index starts there |
| Gaps.ServiceIsRun | server/indexer_service.go:76-108 | every reachable state of a service that has read the last block of the index is a run of it: the blocks handed over in order after its start |
| Gaps.ServiceGaps | server/indexer_service.go:76-108 | in every reachable state of a service that reads the last block of the index there is no gap if and only if there was none before and it indexed no block after a failed one with records or, if it started on an empty index, none on both sides of one |
| Gaps.ServiceLeavesGap | server/indexer_service.go:103-106 | wherever the next two blocks have records, a resumed service on which the first fails leaves a gap, and no sequence of runs of the command and the service fills it |
| Gaps.FirstStartRecovers | server/indexer_service.go:80-82 | on an empty index the same failures leave no gap, and the next backward run indexes the failed block first |
| Gaps.ServiceIsForward | server/indexer_service.go:76-108 | without failures, the database of a service that started where a forward run would is that of a full forward run of the command to the same block |
| Text.DecimalInjective | ethereum/eip712/types.go:312-314 | decimal indices are different for different numbers |
| Text.DecimalExactly | ethereum/eip712/types.go:312-314 | the decimal text of a number stands for it and has no leading zero |
| Text.DescendingUnique | ethereum/eip712/types.go:224-244 | a set of keys has one descending order |
| Json.SameSortedKeys | ethereum/eip712/types.go:224-244 | objects equal up to key order have the same sorted keys |
| SchemaLaws.SanitizedName | ethereum/eip712/types.go:338-356 | a sanitized prefix is a type name of letters and digits |
| SchemaLaws.SanitizedFixed | ethereum/eip712/types.go:338-356 | sanitizing a type name again changes nothing, so that the second pass in nested fields keeps the key |
| SchemaLaws.AsciiTitleIsCaser | ethereum/eip712/types.go:338-356 | title casing of ASCII words has the two properties assumed of the title caser |
| SchemaLaws.ProbeAdds | ethereum/eip712/types.go:278-308 | the probe adds at most one key, which then holds the definition, and redefines none, whatever the names collide with |
| SchemaLaws.ProbeFails | ethereum/eip712/types.go:278-308 | it fails exactly if all thousand indexed names hold other definitions |
| SchemaLaws.ProbeStable | ethereum/eip712/types.go:278-332 | probing again in a map that carries the result gives the same key and changes nothing |
| SchemaLaws.BuildExtends | ethereum/eip712/types.go:143-220 | building a type redefines nothing and returns a defined key |
| SchemaLaws.BuildStable | ethereum/eip712/types.go:143-220 | building the same payload in any map that carries the first result gives that map and the same key |
| SchemaLaws.BuildOrderFree | ethereum/eip712/types.go:143-244 | payloads equal up to key order at every depth give the same map and key |
| SchemaMeaning.BuildClosed | ethereum/eip712/types.go:143-220 | building keeps a map closed: every reference, without its brackets, is primitive or defined |
| SchemaMeaning.BuildDescribes | ethereum/eip712/types.go:143-220 | the returned key describes the payload: its typed fields in descending order, booleans as `bool`, numbers as `int64`, strings as `string`, objects recursively, arrays as those of their first element, and nothing for nulls and nested arrays |
| SchemaMeaning.DescribesCarried | ethereum/eip712/types.go:278-308 | descriptions stay right as the map grows |
| SchemaMeaning.AddMsgMeaning | ethereum/eip712/types.go:91-137 | one message appends one entry to `Tx`, which describes it, and changes no other definition |
| SchemaMeaning.CreateMeaning | ethereum/eip712/types.go:35-87 | the whole schema is closed, keeps the built-in definitions, and has one describing entry per message in order |
| SchemaMeaning.CreateOrderFree | ethereum/eip712/types.go:35-244 | the whole schema does not depend on key order |
| SchemaMeaning.RepeatedMessage | ethereum/eip712/types.go:91-137 | repeating a message, at once or later, changes only the `Tx` entry |
| SchemaNames.RootTypeOf | ethereum/eip712/types.go:115-129 | the root type is `Type` and the last segment of the message's type string |
| SchemaNames.RootTypeMissing | ethereum/eip712/types.go:115-121 | it is missing exactly where there is no such string |
| SchemaNames.SanitizedSub | ethereum/eip712/types.go:338-356 | the name of a path is that of its parent and the words of its last key |
| SchemaNames.TitledWords | ethereum/eip712/types.go:348-352 | words are separated by underscores, and each goes through the title caser |
| SchemaNames.FooBarBaz | ethereum/eip712/types.go:334 | `_.foo_bar.baz` gives `TypeFooBarBaz` |
| SchemaNames.ProbeFirstFree | ethereum/eip712/types.go:278-314 | a definition gets the first numbered name that is free or holds an equal one |
| SchemaNames.BuildNamed | ethereum/eip712/types.go:249-254 | an object's type is named after the root type or its path, and numbered |
| SchemaNames.FieldNamed | ethereum/eip712/types.go:194-214 | a field that holds an object or an array of them refers to the type of its path |
| SchemaNames.MessageNamed | ethereum/eip712/types.go:91-137 | the new entry of `Tx` refers to the type named after the message |
| TypeRegistry.Registry.AddTypesToRoot | ethereum/eip712/types.go:278-308 | the probing loop on the shared map performs the probe and returns its key, leaving the map alone if it fails |
| TypeRegistry.Registry.RecursivelyAddTypesToRoot | ethereum/eip712/types.go:143-220 | the recursive loop over sorted fields fills the shared map as building specifies, also where it fails, and redefines nothing |
| TypeRegistry.Registry.AddField | ethereum/eip712/types.go:159-217 | one turn types the field or passes over it, and adds the types of a nested object; a failure leaves the definitions made before it |
| TypeRegistry.Registry.AddMsgTypesToRoot | ethereum/eip712/types.go:91-111 | adds a message and its `Tx` entry, or fails where the message has no usable type, leaving the map alone, or runs out of names, leaving what was built by then |
| TypeRegistry.CreateTypes | ethereum/eip712/types.go:35-87 | the message loop gives the schema, or fails where one message does |
| Flatten.FlattenPayloadMessages | ethereum/eip712/message.go:70-92 | the loop computes the flattening, failing where the messages are no array, one is no object or its field is taken |
| Flatten.FlatMessage | ethereum/eip712/message.go:113-142 | message i becomes the field `msg<i>`, which was free |
| Flatten.FlatFields | ethereum/eip712/message.go:70-152 | the flattened payload has the original fields without `msgs`, and message i at `msg<i>` |
| Flatten.FlatIsLossless | ethereum/eip712/message.go:70-152 | the flattened payload and the count give every field back, and `msgs` where it was an array |
| Flatten.FlatAgrees | ethereum/eip712/message.go:70-152 | payloads with messages that flatten alike have the same fields |
| Flatten.NullAndEmptyCollide | ethereum/eip712/message.go:95-111 | in every payload without messages, a null and an empty `msgs` flatten alike |
| Flatten.DeterminedExactly | ethereum/eip712/message.go:70-152 | the flattened payload determines the original if and only if it has a message |
| Flatten.FlatSucceeds | ethereum/eip712/message.go:95-135 | flattening succeeds exactly if `msgs` is null or an array of objects and every message field is free |
| Flatten.FlattenedSchema | ethereum/eip712/message.go:26-50 | from payload to schema: entry i of `Tx` describes element i of the original `msgs` |
| Coins.SetAmountOf | precompiles/erc20/types.go:138-149 | setting one amount changes no other denomination |
| Coins.SetAmountValid | precompiles/erc20/types.go:138-149 | setting one amount keeps the list sorted, positive and free of duplicates |
| Coins.Canonical | precompiles/erc20/types.go:133-137 | valid lists with the same amounts are the same list |
| Coins.SetBack | precompiles/erc20/approve.go:279-333 | setting an amount and setting it back restores the list itself |
| Coins.UpdateOrAddCoin | precompiles/erc20/types.go:138-149 | overwriting in place or adding sets exactly that amount |
| Erc20.WithAllowanceSets | precompiles/erc20/approve.go:223-277 | setting one allowance keeps all grants valid and every other cell of the ledger |
| Erc20.WithAllowanceBack | precompiles/erc20/approve.go:223-277 | setting an allowance back restores the grants, an absent one included |
| Erc20.StepRefines | precompiles/erc20/approve.go:35-221 | each successful call keeps grants valid and acts on every cell as on a plain ERC-20 ledger: approving sets it, increases add, decreases and transfers by others subtract |
| Erc20.RunRefines | precompiles/erc20/approve.go:35-333 | over every run, grants stay valid and every allowance is the replay of the calls on a plain ledger, never negative |
| Erc20.IncreaseThenDecrease | precompiles/erc20/approve.go:102-221 | an increase and the same decrease both succeed and restore the exact grants |
| Erc20.RefusedCalls | precompiles/erc20/approve.go:49-55 | approving oneself and transferring zero are refused whatever is granted, own tokens need no allowance, and nothing succeeds under a grant of another type |
| Erc20.SucceedsExactly | precompiles/erc20/approve.go:35-221 | between different accounts, exactly when each call succeeds, in terms of the allowance |
| Erc20.ApproveZero | precompiles/erc20/approve.go:35-91 | approving zero is refused exactly where the spender has a grant that does not list the denomination |
| Erc20.ApproveZeroRefused | precompiles/erc20/approve.go:252-277 | such a grant, under which approving zero is refused although it succeeds without any grant |
| Erc20Precompile.Precompile.CreateAuthorization | precompiles/erc20/approve.go:223-238 | stores the one-coin grant, unless the amount exceeds 256 bits |
| Erc20Precompile.Precompile.UpdateAuthorization | precompiles/erc20/approve.go:240-247 | sets the coin in the stored limit, keeping the others |
| Erc20Precompile.Precompile.RemoveSpendLimitOrDelete | precompiles/erc20/approve.go:252-277 | takes the coin out, and the grant with its last coin; fails without the coin |
| Erc20Precompile.Precompile.Approve | precompiles/erc20/approve.go:35-91 | succeeds exactly on the stated calls, and then leaves the approved amount, or zero for a negative one, whatever was granted before |
| Erc20Precompile.Precompile.IncreaseAllowance | precompiles/erc20/approve.go:102-150 | succeeds exactly on the stated calls, then adds to the allowance and reports the sum |
| Erc20Precompile.Precompile.DecreaseAllowance | precompiles/erc20/approve.go:164-221 | succeeds exactly on the stated calls, then subtracts and reports the rest |
| Erc20Precompile.Precompile.GetAllowance | precompiles/erc20/query.go:209-229 | reads the ledger cell, and fails without a send grant |
| Erc20Precompile.Precompile.QueryAllowance | precompiles/erc20/query.go:179-205 | reports the ledger cell, and the maximum for an owner's own |
| Erc20Precompile.Precompile.SpendAllowance | precompiles/erc20/tx.go:94-137 | spends exactly the amount from grant and balance, or fails |
| Erc20Precompile.Precompile.TransferFrom | precompiles/erc20/tx.go:72-144 | succeeds exactly where grant and balance cover a positive amount; then moves it, conserves all balances and leaves the reported allowance; otherwise nothing changes |
| Machine.BitLenExceeds | precompiles/common/types.go:106-109 | a number needs more than n bits exactly from 2^n on |
| Common.SafeAdd | precompiles/common/types.go:106-109 | the bit-length test reports overflow exactly for sums not between -2^256 and 2^256 |
| Ics20.ShiftLeft | precompiles/ics20/approve_common.go:198-200 | removing by append shifts the backing array and leaves the last coin in it twice |
| Ics20.SubtractLoop | precompiles/ics20/approve_common.go:190-205 | ranging over the shifted array still meets the coin once: it is dropped at zero or below, or reduced, and the others stay |
| Ics20.Subtracted | precompiles/ics20/approve_common.go:190-205 | on a valid limit the loop sets exactly the reduced amount |
| Ics20.TransferAuthorization.CheckAllocationExists | precompiles/ics20/types.go:336-354 | finds the coin of the first matching allocation, and fails if that one lacks it |
| Ics20.TransferAuthorization.IncreaseAllowance | precompiles/ics20/approve_common.go:103-154 | raises exactly that coin, or leaves everything where there is none or the sum overflows |
| Ics20.TransferAuthorization.DecreaseAllowance | precompiles/ics20/approve_common.go:157-221 | subtracts from the first matching allocation, drops the coin exactly at zero, and changes nothing else |
| Ics20.WithAllottedReads | precompiles/ics20/approve_common.go:190-205 | changing one allowance changes none for another port, channel or denomination |
| Ics20Limits.ChangesExactly | precompiles/ics20/approve_common.go:103-185 | an increase succeeds exactly if the first allocation of port and channel lists the coin and the sum fits 256 bits, a decrease exactly if that coin covers it |
| Ics20.IncreaseThenDecrease | precompiles/ics20/approve_common.go:103-221 | an increase and the same decrease succeed and restore the authorization |
| Ics20.SpentIsGone | precompiles/ics20/approve_common.go:125-128 | after a decrease to zero no increase of any amount is accepted |
| FeeChecker.CheckFee | ante/evm/fee_checker.go:48-122 | the London path computes the verdict, with a zero default base fee and the tip of the first dynamic fee option |
| FeeChecker.TipCapOfOption | ante/evm/fee_checker.go:68-82 | the first dynamic fee option caps the tip, at zero if it names no price |
| FeeChecker.TipCapByDefault | ante/evm/fee_checker.go:69 | without such an option the tip is capped at MaxInt64 |
| FeeChecker.RefusedExactly | ante/evm/fee_checker.go:84-102 | refused are exactly a negative tip, no gas, and an offer below the base fee for all the gas |
| FeeChecker.TipBindsExactly | ante/evm/fee_checker.go:104-122 | where base fee and tip cost no more than the offer, they are charged, rounded up |
| FeeChecker.OfferCharged | ante/evm/fee_checker.go:68-122 | without a dynamic fee option every covered offer is accepted and charged exactly, up to 10^18 gas and a tip of MaxInt64 |
| FeeChecker.PriorityExactly | ante/evm/fee_checker.go:114-122 | the priority is the tip in whole units of the reduction, and MaxInt64 beyond |
| FeeChecker.CeilBounds | ante/evm/fee_checker.go:107-112 | the rounded fee is the least integer not below the exact one |
| FeeChecker.ChargeBounds | ante/evm/fee_checker.go:84-122 | the charge is at least the base fee for the gas, at most the offer and at most base fee and tip; the priority is not negative |
| FeeChecker.CapBindsExactly | ante/evm/fee_checker.go:84-122 | where the fee cap binds, the charge is the offer if and only if truncation lost less than one unit |
| FeeChecker.CapBindsUpToUnit | ante/evm/fee_checker.go:84-122 | it is the offer for up to 10^18 gas |
| FeeChecker.TruncationLoses | ante/evm/fee_checker.go:84-122 | beyond that it need not be: an offer of one unit that is charged nothing |
| FeeChecker.OfferMonotone | ante/evm/fee_checker.go:84-122 | a higher offer is accepted where a lower one was, is charged no less and ranked no lower |
| Authz.IsDisabledMsg | ante/cosmos/authz.go:81-89 | the search finds exactly the listed types |
| Authz.CheckDisabledMsgs | ante/cosmos/authz.go:44-77 | the loop with its growing level accepts what the specification accepts |
| Authz.AcceptsExactly | ante/cosmos/authz.go:44-89 | accepted if and only if no disabled type is nested or granted and the level plus the ranks along every path stays below seven |
| Authz.TransactionBound | ante/cosmos/authz.go:30-77 | an accepted transaction has at most 31 `MsgExec`, at most five deep |
| Authz.BoundIsTight | ante/cosmos/authz.go:30-77 | both bounds are attained |
| EvmAnte.AccountKeeper.IncrementNonce | ante/evm/09_increment_sequence.go:13-37 | accepts exactly the stored sequence and stores the next one |
| EvmAnte.AccountKeeper.HandleMsgs | ante/evm/mono_decorator.go:81-244 | the message loop accepts what the specification accepts, leaves its sequences, also where a message is rejected before or after its nonce was incremented, and sums up fees and gas |
| EvmAnte.AccountKeeper.AnteHandle | ante/evm/mono_decorator.go:51-253 | the decorator accepts what the specification accepts and leaves its sequences, accepted or not |
| EvmAnte.AccountKeeper.RunTx | ante/evm/mono_decorator.go:51-256 | a transaction changes the sequences as specified if accepted, and not at all if rejected |
| EvmAnte.AccountKeeper.RunTxs | ante/evm/mono_decorator.go:51-256 | a run of transactions leaves the sequences of the specified run |
| EvmAnte.AcceptsExactly | ante/evm/mono_decorator.go:51-253 | a transaction is accepted exactly if its checks pass, each message comes in the turn of its sender's nonces, and the declared fee and gas are the sums |
| EvmAnte.RejectedLeaves | ante/evm/mono_decorator.go:81-244 | the first message that is not in its turn ends the loop, and the sequences count the messages before it, and itself if only its gas did not fit |
| EvmAnte.MsgsCount | ante/evm/mono_decorator.go:81-244 | in one transaction the messages of a sender carry consecutive nonces, however they interleave |
| EvmAnte.NoncesConsecutive | ante/evm/mono_decorator.go:81-253 | over every run the accepted nonces of a sender count on from its stored sequence, which ends at the next one |
| EvmAnte.NoReplay | ante/evm/09_increment_sequence.go:13-37 | below 2^64 no nonce of a sender is accepted twice |

## Left out

- EvmAnte.AccountKeeper.HandleMsgs: the verdicts of the fee, signature, balance and gas checks are inputs, one before and one after each increment of a nonce.
- EvmAnte.AccountKeeper.AnteHandle: the verdicts of the checks before and after the message loop are inputs.
- Erc20Precompile.Precompile.TransferFrom: the bank's own refusals are an input, and the revert of a failed call, which is the EVM's, is part of the method.
- Schema.TitleCaser: title casing of non-ASCII words is a parameter, of which two properties are assumed; ASCII casing is proved to have them.
- Schema laws that speak of closure or meaning need keys of letters, digits and underscores; gjson path syntax in keys is not modelled.
- Stored index laws need at most 2^31 records in a block, so that the 32-bit index does not wrap, and blocks whose stored height is their key.
- The service model assumes that a fetched result carries the height asked for, as well as sequentially consistent access to the shared block height, which the source reads without a lock.
- Block decoding, event parsing and result codes: a transaction is passed over or comes with its messages and their event data.
- Grant expiration, events, gas metering, journal entries and allow lists of the precompiles: they carry no allowance.
- The plain `transfer` call, minting and the rest of the bank: only the move of one denomination is modelled.
- The authz, bank and coin operations of the SDK: single-coin sums, subtraction and dispatch are given by their documented effect.
- Bit limits of SDK decimals, fees in several coins, and the fee path before London with its own priority.
- The factor that scales fees into priorities is a parameter.
- `types/web3.pb.go`, `types/dynamic_fee.pb.go` and `crypto/ethsecp256k1/keys.pb.go`: the same generated codec shape.
- The legacy EIP-712 encoder, typed-data hashing and signature verification.
- RPC, client, server start-up, application wiring, and the precompiles that only pass arguments on.
