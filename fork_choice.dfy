/** The vote-count fork choice of `fork_choice.py`: two dictionaries,
    blocks by hash and vote lists by hash, and a head query that picks the
    hash with the most votes. */
module ForkChoice {
  import opened Common

  /** A block as `block.py` builds it. Its hash (SHA-256 over parent, proposer,
      slot and wall-clock time) is an opaque input here. */
  datatype Block = Block(parentHash: string, proposer: nat, slot: int, hash: string)

  /** A vote as `validator.py` returns it: the voter's id and a mock signature. */
  datatype Vote = Vote(validator: nat, signature: string)

  /** The vote list of `h`, or the empty list when `h` has none. */
  function VotesOf(votes: map<string, seq<Vote>>, h: string): seq<Vote> {
    if h in votes then votes[h] else []
  }

  class ForkChoice {
    var blocks: map<string, Block>
    var votes: map<string, seq<Vote>>
    /** The keys of `votes` in insertion order, which Python dictionaries keep
        and `max` follows when it breaks ties. */
    var voteOrder: seq<string>

    ghost predicate Valid()
      reads this
    {
      && Distinct(voteOrder)
      && (forall h :: h in votes <==> h in voteOrder)
    }

    constructor ()
      ensures Valid()
      ensures blocks == map[] && votes == map[] && voteOrder == []
    {
      blocks := map[];
      votes := map[];
      voteOrder := [];
    }

    /** `add_block`: store the block under its hash, replacing any earlier
        block with that hash; votes are untouched. */
    method AddBlock(block: Block)
      requires Valid()
      modifies this`blocks
      ensures Valid()
      ensures blocks == old(blocks)[block.hash := block]
    {
      blocks := blocks[block.hash := block];
    }

    /** `register_vote`: `setdefault(block_hash, []).append(vote)`. */
    method RegisterVote(vote: Vote, blockHash: string)
      requires Valid()
      modifies this`votes, this`voteOrder
      ensures Valid()
      ensures votes == old(votes)[blockHash := VotesOf(old(votes), blockHash) + [vote]]
      ensures voteOrder == if blockHash in old(votes) then old(voteOrder) else old(voteOrder) + [blockHash]
      ensures |VotesOf(votes, blockHash)| == |VotesOf(old(votes), blockHash)| + 1
      ensures forall h :: h != blockHash ==> VotesOf(votes, h) == VotesOf(old(votes), h)
    {
      if blockHash !in votes {
        voteOrder := voteOrder + [blockHash];
      }
      votes := votes[blockHash := VotesOf(votes, blockHash) + [vote]];
    }

    /** `get_head`: None when no vote was ever registered; otherwise the key of
        `votes` with the longest list, the first in insertion order among equals
        (what Python's `max` with a key function returns). Only `votes` is read,
        so the head may name a hash that is not in `blocks`. */
    method GetHead() returns (head: Option<string>)
      requires Valid()
      ensures head.None? <==> votes == map[]
      ensures head.Some? ==> head.value in votes
      ensures head.Some? ==> forall h :: h in votes ==> |votes[h]| <= |votes[head.value]|
      ensures head.Some? ==>
        exists k :: 0 <= k < |voteOrder| && voteOrder[k] == head.value &&
          (forall j :: 0 <= j < k ==> |votes[voteOrder[j]]| < |votes[head.value]|)
    {
      if |voteOrder| == 0 {
        assert votes.Keys == {};
        return None;
      }
      var best := 0;
      var i := 1;
      while i < |voteOrder|
        invariant 1 <= i <= |voteOrder|
        invariant 0 <= best < i
        invariant forall j :: 0 <= j < i ==> |votes[voteOrder[j]]| <= |votes[voteOrder[best]]|
        invariant forall j :: 0 <= j < best ==> |votes[voteOrder[j]]| < |votes[voteOrder[best]]|
      {
        if |votes[voteOrder[i]]| > |votes[voteOrder[best]]| {
          best := i;
        }
        i := i + 1;
      }
      head := Some(voteOrder[best]);
      forall h | h in votes ensures |votes[h]| <= |votes[voteOrder[best]]| {
        var k :| 0 <= k < |voteOrder| && voteOrder[k] == h;
      }
    }
  }
}
