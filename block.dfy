/**
 * A sealed block, the JSON shape the serialiser is given, and the block's
 * content hash: a SHA-256 digest of the serialised block without its own
 * `hash` and `miningStats` fields, rendered as lowercase hex.
 */
module Blocks {
  import opened Wrappers
  import opened Transactions
  import Hex

  /** The contents of the mining statistics record, whose type is not part of this model. */
  type StatsPayload(==)

  /** A block's mining statistics: the zero value, or some recorded contents. */
  datatype MiningStats = ZeroStats | Recorded(payload: StatsPayload)

  datatype Block = Block(
    index: int,
    timeStamp: int,
    transactions: seq<Transaction>,
    proof: int,
    previousHash: string,
    hash: string,
    miningStats: MiningStats)

  /**
   * The value handed to the JSON serialiser. Object members keep the order of
   * the struct's fields and use the struct's tags as keys; numbers keep their
   * own type, since their textual form belongs to the serialiser.
   */
  datatype JsonValue =
    | JNull
    | JInt(i: int)
    | JNumber(amount: Amount)
    | JString(s: string)
    | JArray(elements: seq<JsonValue>)
    | JObject(members: seq<(string, JsonValue)>)
    | JStats(stats: MiningStats)

  /** A SHA-256 digest: exactly 32 bytes. */
  type Digest = d: seq<Hex.byte> | |d| == 32 witness seq(32, _ => 0)

  /**
   * The two library routines the hash is built from: SHA-256, and the JSON
   * serialiser, which fails on values it cannot encode (a NaN or infinite
   * amount, for instance).
   */
  datatype Codecs = Codecs(sha256: seq<Hex.byte> -> Digest, marshal: JsonValue -> Option<seq<Hex.byte>>)

  function Keys(v: JsonValue): (ks: seq<string>)
    requires v.JObject?
  {
    seq(|v.members|, i requires 0 <= i < |v.members| => v.members[i].0)
  }

  /** A transaction has no tags, so its members are keyed by field name. */
  function TransactionJson(t: Transaction): (v: JsonValue) {
    JObject([("Sender", JString(t.sender)), ("Recipient", JString(t.recipient)), ("Amount", JNumber(t.amount))])
  }

  /**
   * The transaction list as serialised. Every empty list in the system is a
   * nil slice (the genesis block's and the drained pool's), which the
   * serialiser writes as null.
   */
  function TransactionsJson(ts: seq<Transaction>): (v: JsonValue) {
    if ts == [] then JNull
    else JArray(seq(|ts|, i requires 0 <= i < |ts| => TransactionJson(ts[i])))
  }

  /** The five hashed fields, in the fixed order index, timestamp, transactions, proof, previousHash. */
  function HashPreimage(b: Block): (v: JsonValue)
    ensures v.JObject?
    ensures Keys(v) == ["index", "timestamp", "transactions", "proof", "previousHash"]
    ensures "hash" !in Keys(v) && "miningStats" !in Keys(v)
  {
    JObject([
      ("index", JInt(b.index)),
      ("timestamp", JInt(b.timeStamp)),
      ("transactions", TransactionsJson(b.transactions)),
      ("proof", JInt(b.proof)),
      ("previousHash", JString(b.previousHash))])
  }

  /**
   * The block's content hash: 64 lowercase hex digits that decode to the
   * digest of the serialised preimage, or the empty string when the
   * serialiser fails.
   */
  function CalculateHash(c: Codecs, b: Block): (r: string)
    ensures c.marshal(HashPreimage(b)).Some? ==>
      |r| == 64 && Hex.IsLowerHexString(r) &&
      Hex.Decode(r) == Some(c.sha256(c.marshal(HashPreimage(b)).value))
    ensures c.marshal(HashPreimage(b)).None? ==> r == ""
    ensures r == "" <==> c.marshal(HashPreimage(b)).None?
  {
    match c.marshal(HashPreimage(b))
    case None => ""
    case Some(data) =>
      Hex.DecodeEncode(c.sha256(data));
      Hex.Encode(c.sha256(data))
  }

  /** The stored hash and the mining statistics never influence the content hash. */
  lemma CalculateHashIgnoresDerivedFields(c: Codecs, b1: Block, b2: Block)
    requires b1.index == b2.index && b1.timeStamp == b2.timeStamp
    requires b1.transactions == b2.transactions && b1.proof == b2.proof
    requires b1.previousHash == b2.previousHash
    ensures CalculateHash(c, b1) == CalculateHash(c, b2)
  {
  }

  /** A successful hash can be decoded back to exactly one digest, so distinct digests give distinct hashes. */
  lemma CalculateHashDistinguishesDigests(c: Codecs, b1: Block, b2: Block)
    requires c.marshal(HashPreimage(b1)).Some? && c.marshal(HashPreimage(b2)).Some?
    requires c.sha256(c.marshal(HashPreimage(b1)).value) != c.sha256(c.marshal(HashPreimage(b2)).value)
    ensures CalculateHash(c, b1) != CalculateHash(c, b2)
  {
  }
}
