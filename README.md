# go-pow mining core in Dafny

This project models the mining and chain-integrity core of an educational
single-node proof-of-work ledger written in Go:

- **Blocks** (`block.dfy`, after `backend/core/block.go`): the `Block` record and
  its content hash `CalculateHash`. The hash serialises only five fields, in the
  order index, timestamp, transactions, proof and previousHash. It then takes a
  SHA-256 digest and renders it as lowercase base16 (section 8 of RFC 4648).
  If serialisation fails, the result is the empty string.
- **Hex** (`hex.dfy`): the lowercase base16 rendering, with a decoder that is
  proved to be its exact inverse.
- **Transactions** (`transaction.dfy`, after `backend/core/transaction.go`): the
  plain `Transaction{Sender, Recipient, Amount}` value.
- **Chain** (`blockchain.dfy`, after `backend/core/blockChain.go`): the
  `BlockChain` class. It holds the block sequence `chain` and the pending pool
  `currentTransactions`, and has the genesis constructor, `CreateGenesisBlock`,
  `AddTransaction` and `MineBlock`. `ChainInvariant` is the class invariant:
  - a genesis block with proof 100 and previous hash "0";
  - contiguous indices;
  - hash linkage through `Hash`, the digest of the whole serialised block;
  - the stored `hash` field and the mining statistics are never set.
- **ConsensusStream** (`consensus_stream.dfy`, after
  `backend/handlers/consensus_stream.go`): the streaming proof search. It returns
  the sequence of steps it performs: one progress event per attempt, the single
  call that mines the block, and the closing event.

SHA-256 and the JSON serialiser are library routines. They are parameters of
the model, bundled in `Blocks.Codecs`:
- `sha256` maps any byte string to a 32-byte digest;
- `marshal` maps a `JsonValue` to bytes, or fails.

`JsonValue` makes explicit what the Go struct definitions fix:
- the member keys (the JSON tags, or the bare field names for `Transaction`, which has no tags);
- their order;
- that a nil transaction slice is written as `null`.

Every empty transaction list in this system is a nil slice: the genesis block's, and the pool's after a reset.

In these places the model follows the code as written:
- `MineBlock` takes its proof as an argument and never checks it.
- `MineBlock` never fills the block's `Hash` field; it stays `""`.
- Blocks are linked by `Hash(lastBlock)`, a digest of the whole struct including `Hash` and `MiningStats`, not by `CalculateHash`. `Hash` ignores a serialiser error and digests the empty input instead. `Chain.PreviousHashNeverMatchesStoredHash` shows the consequence: a block's previousHash never equals its predecessor's stored `hash` field.
- `CalculateHash` can fail (for example on a NaN amount), and then returns `""`.
- The handler takes a `*core.Blockchain` and calls `GetLastBlock`, `HashProof`, `ValidProof` and a zero-argument `MineBlock()` (`backend/handlers/consensus_stream.go:22,34,42-43,63`). No such type exists in `backend/core/blockChain.go`, and `BlockChain` there has none of these methods (its `MineBlock` takes a proof). The stream is therefore modelled against an abstract interface:
  - the tip block, read once;
  - two functions `hashProof` and `validProof`;
  - a `MineCall` step standing for the mining call.

## Model

| member | source | states |
|---|---|---|
| Hex.Encode | backend/core/block.go:42 | each digest byte becomes two lowercase hex digits, so the rendering is twice as long as the input and uses only `0-9a-f` |
| Hex.DecodeEncode | backend/core/block.go:42 | decoding the hex rendering of any byte string yields exactly those bytes |
| Hex.EncodeDecode | backend/core/block.go:42 | every string the decoder accepts is the rendering of the bytes it decodes to, so rendering and decoding are a bijection |
| Hex.EncodeInjective | backend/core/block.go:42 | distinct byte strings have distinct renderings |
| Blocks.HashPreimage | backend/core/block.go:22-34 | the hashed value is an object whose keys are exactly index, timestamp, transactions, proof, previousHash in that order; neither hash nor miningStats is among them |
| Blocks.CalculateHash | backend/core/block.go:20-43 | on successful serialisation the result is 64 lowercase hex characters that decode to the SHA-256 digest of the serialised preimage; on failure it is `""`; the result is `""` exactly when serialisation fails, so a failure is never mistaken for a hash |
| Blocks.CalculateHashIgnoresDerivedFields | backend/core/block.go:22-34 | two blocks agreeing on index, timestamp, transactions, proof and previousHash get the same content hash, whatever their hash and mining statistics |
| Blocks.CalculateHashDistinguishesDigests | backend/core/block.go:41-42 | when both serialise, blocks whose digests differ get different content hashes |
| Chain.BlockJson | backend/core/blockChain.go:52 | the link hash serialises all seven block fields, keyed index, timestamp, transactions, proof, previousHash, hash, miningStats in that order |
| Chain.Hash | backend/core/blockChain.go:51-55 | the link hash is always 64 lowercase hex characters that decode to the SHA-256 digest of the whole serialised block (hash and miningStats included), or of the empty input when serialisation fails |
| Chain.GenesisChainValid | backend/core/blockChain.go:21-30 | the one-block genesis chain (index 0, proof 100, previous hash "0", no transactions) satisfies the chain invariant |
| Chain.MiningPreservesInvariant | backend/core/blockChain.go:37-49 | appending the block that MineBlock builds to a valid chain keeps indices contiguous and every block linked to its predecessor's Hash, for any proof |
| Chain.RepeatedGenesisBreaksInvariant | backend/core/blockChain.go:21-30 | appending a genesis block to a non-empty chain breaks the invariant |
| Chain.PreviousHashNeverMatchesStoredHash | backend/core/blockChain.go:39-46 | in a valid chain, a block's previousHash (64 characters) never equals its predecessor's stored hash field, which stays empty |
| Chain.BlockChain.constructor | backend/core/blockChain.go:15-30 | a new chain holds exactly the genesis block (index 0, proof 100, previous hash "0", no transactions), the pool is empty, and the invariant holds |
| Chain.BlockChain.CreateGenesisBlock | backend/core/blockChain.go:21-30 | appends one genesis block to whatever the chain holds and leaves the pool alone; on a non-empty chain the invariant is then lost |
| Chain.BlockChain.AddTransaction | backend/core/blockChain.go:32-35 | the pool becomes the old pool followed by exactly `Transaction(sender, recipient, amount)`; the chain is unchanged; the invariant is kept |
| Chain.BlockChain.MineBlock | backend/core/blockChain.go:37-49 | the chain grows by exactly one block, earlier blocks unchanged; the block has index = old length, the old pool as transactions, the given proof unchecked, previousHash = Hash of the old tip; it is returned and is the new tip; the pool is emptied; the invariant is kept |
| ConsensusStream.MineConsensusStream | backend/handlers/consensus_stream.go:34-81 | the search ends at the smallest non-negative valid proof; its steps are the events of attempts 0..winner in order, then one mining call, then the closing event |
| ConsensusStream.LeastValidUnique | backend/handlers/consensus_stream.go:37-67 | the smallest valid proof is unique, so the same previous proof always yields the same winner |
| ConsensusStream.SearchEventContents | backend/handlers/consensus_stream.go:42-56 | search event k has attempt k and proof k, the digest and validity of proof k, block index = tip index + 1, message "Valid proof found!" exactly when found and "Trying next proof..." exactly when not |
| ConsensusStream.OnlyLastSearchEventFound | backend/handlers/consensus_stream.go:41-67 | among the search events only the last, the winner's, has found set |
| ConsensusStream.FinalEventRepeatsWinner | backend/handlers/consensus_stream.go:71-78 | the closing event repeats the winning attempt, proof and digest with found true, the same block index and "Block mined and added to chain." |
| ConsensusStream.MinedOnceAndEventCount | backend/handlers/consensus_stream.go:61-81 | the block is mined exactly once, right after the successful search event, and the stream carries winner + 2 events |

## Left out

- SHA-256 and JSON serialisation, including the float formatting of `Amount`, are library routines. They are parameters (`Blocks.Codecs`), not definitions.
- `Amount` is an opaque value type, compared only for equality; no floating point is modelled.
- The type of `MiningStats` is not part of this model. It is either the zero value or an opaque payload, and the serialiser renders it.
- Timestamps from the clock are method parameters.
- The handler's HTTP plumbing is not modelled: the flusher check, headers, `data: ...` event framing, flushing and the 15 ms pause between attempts.
- The route table and request glue in `backend/server.go` are not modelled. It only calls `AddTransaction` and `MineBlock(100)`.
- The Vue router tables are not modelled; they hold no logic.
- Concurrency is not modelled: the process-wide chain is used without a lock, and the model has a single sequential owner.
- ConsensusStream.MineConsensusStream: requires that some valid proof exists; it does not model the search that never ends when none does.
- ConsensusStream.MineConsensusStream: does not model client disconnection or the 64-bit overflow of `proof`/`attempt`.
- Chain.BlockChain.MineBlock: the index-out-of-range panic on an empty chain is excluded by the requires; a constructed chain is never empty.
- Chain.BlockChain.MineBlock: indices, proofs and timestamps are unbounded integers; Go's `int`/`int64` widths are not modelled.
- The handler's collaborators do not exist on `BlockChain` in `backend/core/blockChain.go`. Their effect on the chain is a `MineCall` step, not a call into `Chain.BlockChain`.
