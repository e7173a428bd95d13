/**
 * The ledger: an append-only sequence of blocks, each linked to its
 * predecessor by hash, and the pool of transactions waiting for the next
 * block.
 */
module Chain {
  import opened Transactions
  import opened Blocks
  import Hex
  import opened Wrappers

  /** The proof placed in the genesis block. */
  const GenesisProof := 100

  /** The previous-hash marker of the genesis block. */
  const GenesisPreviousHash := "0"

  /**
   * The hash that links a block to its successor: the digest of the WHOLE
   * serialised block, stored hash and mining statistics included. A
   * serialiser failure is ignored and the empty input is digested instead.
   */
  function Hash(c: Codecs, b: Block): (h: string)
    ensures |h| == 64 && Hex.IsLowerHexString(h)
    ensures Hex.Decode(h) == Some(c.sha256(c.marshal(BlockJson(b)).GetOr([])))
  {
    var data := c.marshal(BlockJson(b)).GetOr([]);
    Hex.DecodeEncode(c.sha256(data));
    Hex.Encode(c.sha256(data))
  }

  /** All seven fields of a block, keyed by their tags. */
  function BlockJson(b: Block): (v: JsonValue)
    ensures v.JObject?
    ensures Keys(v) == ["index", "timestamp", "transactions", "proof", "previousHash", "hash", "miningStats"]
  {
    JObject([
      ("index", JInt(b.index)),
      ("timestamp", JInt(b.timeStamp)),
      ("transactions", TransactionsJson(b.transactions)),
      ("proof", JInt(b.proof)),
      ("previousHash", JString(b.previousHash)),
      ("hash", JString(b.hash)),
      ("miningStats", JStats(b.miningStats))])
  }

  function GenesisBlock(timeStamp: int): (b: Block) {
    Block(0, timeStamp, [], GenesisProof, GenesisPreviousHash, "", ZeroStats)
  }

  /**
   * The block sealed on top of `chain`: it takes the next index, the whole
   * pool, the given proof unchecked, and the link hash of the tip. Its own
   * hash field is left empty.
   */
  function NextBlock(c: Codecs, chain: seq<Block>, pool: seq<Transaction>, proof: int, timeStamp: int): (b: Block)
    requires |chain| >= 1
  {
    Block(|chain|, timeStamp, pool, proof, Hash(c, chain[|chain| - 1]), "", ZeroStats)
  }

  /** Block i sits at position i. */
  ghost predicate IndicesContiguous(chain: seq<Block>) {
    forall i :: 0 <= i < |chain| ==> chain[i].index == i
  }

  /** Every block after the first names its predecessor's link hash. */
  ghost predicate HashLinked(c: Codecs, chain: seq<Block>) {
    forall i :: 1 <= i < |chain| ==> chain[i].previousHash == Hash(c, chain[i - 1])
  }

  ghost predicate IsGenesis(b: Block) {
    b.index == 0 && b.transactions == [] && b.proof == GenesisProof &&
    b.previousHash == GenesisPreviousHash && b.hash == "" && b.miningStats == ZeroStats
  }

  /** No block ever has its hash field or its mining statistics set. */
  ghost predicate DerivedFieldsUnset(chain: seq<Block>) {
    forall i :: 0 <= i < |chain| ==> chain[i].hash == "" && chain[i].miningStats == ZeroStats
  }

  /** What holds of every chain built by construction and mining. */
  ghost predicate ChainInvariant(c: Codecs, chain: seq<Block>) {
    |chain| >= 1 && IsGenesis(chain[0]) &&
    IndicesContiguous(chain) && HashLinked(c, chain) && DerivedFieldsUnset(chain)
  }

  /** The chain holding only a genesis block satisfies the invariant. */
  lemma GenesisChainValid(c: Codecs, timeStamp: int)
    ensures ChainInvariant(c, [GenesisBlock(timeStamp)])
  {
  }

  /** Sealing the pool onto a valid chain keeps it valid, whatever the proof. */
  lemma MiningPreservesInvariant(c: Codecs, chain: seq<Block>, pool: seq<Transaction>, proof: int, timeStamp: int)
    requires ChainInvariant(c, chain)
    ensures ChainInvariant(c, chain + [NextBlock(c, chain, pool, proof, timeStamp)])
  {
  }

  /** A second genesis block appended to a non-empty chain breaks the index order. */
  lemma RepeatedGenesisBreaksInvariant(c: Codecs, chain: seq<Block>, timeStamp: int)
    requires |chain| >= 1
    ensures !ChainInvariant(c, chain + [GenesisBlock(timeStamp)])
  {
    var chain' := chain + [GenesisBlock(timeStamp)];
    assert chain'[|chain|].index == 0 != |chain|;
  }

  /**
   * The link hash is never the stored hash field: in a valid chain every
   * block's previousHash differs from its predecessor's hash field, which
   * stays empty.
   */
  lemma PreviousHashNeverMatchesStoredHash(c: Codecs, chain: seq<Block>, i: int)
    requires ChainInvariant(c, chain)
    requires 1 <= i < |chain|
    ensures chain[i].previousHash != chain[i - 1].hash
  {
  }

  class BlockChain {
    /** The digest and serialiser routines the chain links blocks with. */
    const codecs: Codecs
    var chain: seq<Block>
    var currentTransactions: seq<Transaction>

    ghost predicate Valid()
      reads this
    {
      ChainInvariant(codecs, chain)
    }

    /** A chain holding only the genesis block and an empty pool. */
    constructor (codecs: Codecs, timeStamp: int)
      ensures this.codecs == codecs
      ensures chain == [GenesisBlock(timeStamp)] && currentTransactions == []
      ensures Valid()
    {
      this.codecs := codecs;
      chain := [];
      currentTransactions := [];
      new;
      CreateGenesisBlock(timeStamp);
      GenesisChainValid(codecs, timeStamp);
    }

    /** Appends a genesis block, whatever the chain already holds. */
    method CreateGenesisBlock(timeStamp: int)
      modifies this
      ensures chain == old(chain) + [GenesisBlock(timeStamp)]
      ensures currentTransactions == old(currentTransactions)
      ensures old(chain) != [] ==> !Valid()
    {
      chain := chain + [GenesisBlock(timeStamp)];
      if old(chain) != [] {
        RepeatedGenesisBreaksInvariant(codecs, old(chain), timeStamp);
      }
    }

    /** Stages a transfer at the end of the pool; the chain is untouched. */
    method AddTransaction(sender: string, recipient: string, amount: Amount)
      modifies this
      ensures currentTransactions == old(currentTransactions) + [Transaction(sender, recipient, amount)]
      ensures chain == old(chain)
      ensures old(Valid()) ==> Valid()
    {
      var transaction := Transaction(sender, recipient, amount);
      currentTransactions := currentTransactions + [transaction];
    }

    /**
     * Seals the pool into a new block carrying `proof` (never checked) and
     * the tip's link hash, appends it and empties the pool.
     */
    method MineBlock(proof: int, timeStamp: int) returns (b: Block)
      requires |chain| >= 1
      modifies this
      ensures b == NextBlock(codecs, old(chain), old(currentTransactions), proof, timeStamp)
      ensures b.index == |old(chain)| && b.transactions == old(currentTransactions) && b.proof == proof
      ensures b.previousHash == Hash(codecs, old(chain)[|old(chain)| - 1])
      ensures chain == old(chain) + [b] && b == chain[|chain| - 1]
      ensures currentTransactions == []
      ensures old(Valid()) ==> Valid()
    {
      var lastBlock := chain[|chain| - 1];
      var newBlock := Block(|chain|, timeStamp, currentTransactions, proof, Hash(codecs, lastBlock), "", ZeroStats);
      if Valid() {
        MiningPreservesInvariant(codecs, chain, currentTransactions, proof, timeStamp);
      }
      chain := chain + [newBlock];
      currentTransactions := [];
      b := newBlock;
    }
  }

  /** Two transfers staged on a fresh chain end up, in order, in block 1. */
  method SealTwoTransfers(c: Codecs, ten: Amount, five: Amount)
  {
    var bc := new BlockChain(c, 1000);
    assert bc.chain[0].index == 0 && bc.chain[0].previousHash == "0";
    bc.AddTransaction("alice", "bob", ten);
    bc.AddTransaction("bob", "carol", five);
    var genesis := bc.chain[0];
    var b := bc.MineBlock(100, 1001);
    assert b.index == 1 && |bc.chain| == 2 && bc.currentTransactions == [];
    assert b.transactions == [Transaction("alice", "bob", ten), Transaction("bob", "carol", five)];
    assert b.previousHash == Hash(c, genesis);
    assert bc.Valid();
  }
}
