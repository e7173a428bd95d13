/**
 * The streaming proof search: candidate proofs are tried in ascending order
 * from 0, one progress event is emitted per attempt, and at the first valid
 * proof the chain is asked to mine once and a closing event is emitted.
 *
 * The chain is seen through an abstract interface: the tip block read once
 * before the search, and the proof digest and validity functions. The
 * stream's output is the sequence of steps it performs: events written to
 * the client and the single call that mines the block.
 */
module ConsensusStream {
  import opened Blocks

  datatype ConsensusProgress = ConsensusProgress(
    attempt: int,
    proof: int,
    hash: string,
    found: bool,
    blockIndex: int,
    message: string)

  datatype StreamStep = Emit(event: ConsensusProgress) | MineCall

  const TryingMessage := "Trying next proof..."
  const FoundMessage := "Valid proof found!"
  const MinedMessage := "Block mined and added to chain."

  /** p is the smallest non-negative proof the validity test accepts. */
  ghost predicate IsLeastValid(validProof: (int, int) -> bool, lastProof: int, p: nat) {
    validProof(lastProof, p) && forall q: nat :: q < p ==> !validProof(lastProof, q)
  }

  /** The event reported for attempt k. */
  function AttemptEvent(lastBlock: Block, hashProof: (int, int) -> string, validProof: (int, int) -> bool, k: nat): (e: ConsensusProgress) {
    var found := validProof(lastBlock.proof, k);
    ConsensusProgress(k, k, hashProof(lastBlock.proof, k), found, lastBlock.index + 1,
                      if found then FoundMessage else TryingMessage)
  }

  /** The closing event after the block has been mined with proof p. */
  function FinalEvent(lastBlock: Block, hashProof: (int, int) -> string, p: nat): (e: ConsensusProgress) {
    ConsensusProgress(p, p, hashProof(lastBlock.proof, p), true, lastBlock.index + 1, MinedMessage)
  }

  /** The events of attempts 0 .. n-1. */
  function SearchSteps(lastBlock: Block, hashProof: (int, int) -> string, validProof: (int, int) -> bool, n: nat): (s: seq<StreamStep>)
    ensures |s| == n
  {
    seq(n, k requires 0 <= k < n => Emit(AttemptEvent(lastBlock, hashProof, validProof, k)))
  }

  /** The whole stream when proof p wins. */
  function StreamTrace(lastBlock: Block, hashProof: (int, int) -> string, validProof: (int, int) -> bool, p: nat): (s: seq<StreamStep>)
    ensures |s| == p + 3
  {
    SearchSteps(lastBlock, hashProof, validProof, p + 1) + [MineCall, Emit(FinalEvent(lastBlock, hashProof, p))]
  }

  /**
   * The search loop. It does not stop unless some proof is valid; `bound`
   * is such a proof and only serves to show that the loop ends.
   */
  method MineConsensusStream(lastBlock: Block, hashProof: (int, int) -> string, validProof: (int, int) -> bool, ghost bound: nat)
    returns (steps: seq<StreamStep>, winner: nat)
    requires validProof(lastBlock.proof, bound)
    ensures IsLeastValid(validProof, lastBlock.proof, winner)
    ensures steps == StreamTrace(lastBlock, hashProof, validProof, winner)
  {
    var blockIndex := lastBlock.index + 1;
    var proof: nat := 0;
    var attempt := 0;
    var hash: string;
    steps := [];
    while true
      invariant proof <= bound && attempt == proof
      invariant forall q: nat :: q < proof ==> !validProof(lastBlock.proof, q)
      invariant steps == SearchSteps(lastBlock, hashProof, validProof, proof)
      decreases bound - proof
    {
      hash := hashProof(lastBlock.proof, proof);
      var found := validProof(lastBlock.proof, proof);
      var progress := ConsensusProgress(attempt, proof, hash, found, blockIndex, "");
      if found {
        progress := progress.(message := FoundMessage);
      } else {
        progress := progress.(message := TryingMessage);
      }
      steps := steps + [Emit(progress)];
      if found {
        steps := steps + [MineCall];
        break;
      }
      proof := proof + 1;
      attempt := attempt + 1;
    }
    var finalMsg := ConsensusProgress(attempt, proof, hash, true, blockIndex, MinedMessage);
    steps := steps + [Emit(finalMsg)];
    winner := proof;
  }

  /** The least valid proof is unique: the search is reproducible. */
  lemma LeastValidUnique(validProof: (int, int) -> bool, lastProof: int, p: nat, q: nat)
    requires IsLeastValid(validProof, lastProof, p) && IsLeastValid(validProof, lastProof, q)
    ensures p == q
  {
  }

  /**
   * Search event k reports attempt k and proof k, the digest and validity of
   * proof k, the index of the block being mined, and the message that
   * matches its validity.
   */
  lemma SearchEventContents(lastBlock: Block, hashProof: (int, int) -> string, validProof: (int, int) -> bool, p: nat, k: nat)
    requires k <= p
    ensures var s := StreamTrace(lastBlock, hashProof, validProof, p);
      s[k].Emit? &&
      s[k].event.attempt == k && s[k].event.proof == k &&
      s[k].event.hash == hashProof(lastBlock.proof, k) &&
      s[k].event.found == validProof(lastBlock.proof, k) &&
      s[k].event.blockIndex == lastBlock.index + 1 &&
      (s[k].event.message == FoundMessage <==> s[k].event.found) &&
      (s[k].event.message == TryingMessage <==> !s[k].event.found)
  {
  }

  /** Only the last search event reports success, and it is the winning proof's. */
  lemma OnlyLastSearchEventFound(lastBlock: Block, hashProof: (int, int) -> string, validProof: (int, int) -> bool, p: nat, k: nat)
    requires IsLeastValid(validProof, lastBlock.proof, p)
    requires k <= p
    ensures StreamTrace(lastBlock, hashProof, validProof, p)[k].event.found <==> k == p
  {
  }

  /** The closing event repeats the winning attempt, proof and digest with the mined message. */
  lemma FinalEventRepeatsWinner(lastBlock: Block, hashProof: (int, int) -> string, validProof: (int, int) -> bool, p: nat)
    ensures var s := StreamTrace(lastBlock, hashProof, validProof, p);
      s[p + 2].Emit? &&
      s[p + 2].event == ConsensusProgress(p, p, s[p].event.hash, true, lastBlock.index + 1, MinedMessage)
  {
  }

  function CountMineCalls(s: seq<StreamStep>): (n: nat) {
    if s == [] then 0
    else CountMineCalls(s[..|s| - 1]) + (if s[|s| - 1].MineCall? then 1 else 0)
  }

  function CountEvents(s: seq<StreamStep>): (n: nat) {
    if s == [] then 0
    else CountEvents(s[..|s| - 1]) + (if s[|s| - 1].Emit? then 1 else 0)
  }

  lemma {:induction false} SearchStepsCounts(lastBlock: Block, hashProof: (int, int) -> string, validProof: (int, int) -> bool, n: nat)
    ensures CountMineCalls(SearchSteps(lastBlock, hashProof, validProof, n)) == 0
    ensures CountEvents(SearchSteps(lastBlock, hashProof, validProof, n)) == n
  {
    if n > 0 {
      var s := SearchSteps(lastBlock, hashProof, validProof, n);
      assert s[..n - 1] == SearchSteps(lastBlock, hashProof, validProof, n - 1);
      SearchStepsCounts(lastBlock, hashProof, validProof, n - 1);
    }
  }

  /**
   * The block is mined exactly once, right after the successful search
   * event, and the stream holds the winning attempt + 2 events.
   */
  lemma {:induction false} MinedOnceAndEventCount(lastBlock: Block, hashProof: (int, int) -> string, validProof: (int, int) -> bool, p: nat)
    ensures var s := StreamTrace(lastBlock, hashProof, validProof, p);
      CountMineCalls(s) == 1 && s[p + 1] == MineCall && CountEvents(s) == p + 2
  {
    var search := SearchSteps(lastBlock, hashProof, validProof, p + 1);
    var s := StreamTrace(lastBlock, hashProof, validProof, p);
    SearchStepsCounts(lastBlock, hashProof, validProof, p + 1);
    assert s[..|s| - 1] == search + [MineCall];
    assert (search + [MineCall])[..|search|] == search;
  }
}
