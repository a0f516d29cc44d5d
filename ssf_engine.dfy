/** The single-slot-finality driver of `ssf_engine.py`: each slot a
    round-robin proposer makes a block, every validator may vote for it, and
    the block counts as finalized when the share of votes reaches the
    threshold. Block hashes and validator votes are opaque inputs. */
module SsfEngine {
  import opened Common
  import FC = ForkChoice

  /** What the engine reads of a `Validator` object: its id. */
  datatype ValidatorInfo = ValidatorInfo(id: nat)

  /** The dictionary `run_slot` returns. `quorum` is kept exact; the source
      rounds it to three decimals for display only. */
  datatype SlotResult = SlotResult(slot: int, blockHash: string, quorum: real, finalized: bool)

  /** The votes cast for block `h`, in roster order: the non-None answers of
      `Validator.vote`, which is the oracle `vote`. */
  function Cast(vs: seq<ValidatorInfo>, h: string, vote: (nat, string) -> Option<FC.Vote>): seq<FC.Vote>
  {
    if vs == [] then []
    else
      var last := vote(vs[|vs| - 1].id, h);
      Cast(vs[..|vs| - 1], h, vote) + (if last.Some? then [last.value] else [])
  }

  /** The vote lists after registering each of `cast` against `h` in turn. */
  function Registered(votes: map<string, seq<FC.Vote>>, h: string, cast: seq<FC.Vote>): map<string, seq<FC.Vote>>
  {
    if cast == [] then votes else votes[h := FC.VotesOf(votes, h) + cast]
  }

  lemma RegisteredSnoc(votes: map<string, seq<FC.Vote>>, h: string, cast: seq<FC.Vote>, v: FC.Vote)
    ensures var m := Registered(votes, h, cast);
            Registered(votes, h, cast + [v]) == m[h := FC.VotesOf(m, h) + [v]]
  {
    if cast == [] {
      assert cast + [v] == [v];
    } else {
      assert FC.VotesOf(votes, h) + (cast + [v]) == (FC.VotesOf(votes, h) + cast) + [v];
    }
  }

  /** The insertion order of the vote lists after registering `cast` against
      `h`: a hash is appended when its first vote arrives. */
  function OrderAfter(votes: map<string, seq<FC.Vote>>, order: seq<string>, h: string, cast: seq<FC.Vote>): seq<string>
  {
    if cast == [] || h in votes then order else order + [h]
  }

  lemma OrderAfterSnoc(votes: map<string, seq<FC.Vote>>, order: seq<string>, h: string, cast: seq<FC.Vote>, v: FC.Vote)
    ensures var m := Registered(votes, h, cast);
            OrderAfter(votes, order, h, cast + [v])
            == (if h in m then OrderAfter(votes, order, h, cast) else OrderAfter(votes, order, h, cast) + [h])
  {
  }

  /** Registering keeps the fork choice's bookkeeping: the old order is kept
      as a prefix, at most `h` is appended, and the order lists each hash with
      votes exactly once. So `get_head`'s tie-break among the old hashes is
      unchanged, and a hash voted on for the first time comes last. */
  lemma OrderAfterListsVoted(votes: map<string, seq<FC.Vote>>, order: seq<string>, h: string, cast: seq<FC.Vote>)
    requires Distinct(order) && forall x :: x in votes <==> x in order
    ensures var r := OrderAfter(votes, order, h, cast);
      && order <= r && |r| <= |order| + 1
      && (|r| == |order| + 1 <==> cast != [] && h !in votes)
      && Distinct(r)
      && forall x :: x in Registered(votes, h, cast) <==> x in r
  {
    var r := OrderAfter(votes, order, h, cast);
    if cast != [] && h !in votes {
      forall i, j | 0 <= i < j < |r| ensures r[i] != r[j] {
        if j == |order| {
          assert r[i] == order[i] && order[i] in votes;
        }
      }
    }
  }

  /** Each vote cast comes from one validator of the roster, and there are no
      more votes than validators. */
  lemma {:induction false} CastFromRoster(vs: seq<ValidatorInfo>, h: string, vote: (nat, string) -> Option<FC.Vote>)
    ensures |Cast(vs, h, vote)| <= |vs|
    ensures forall k :: 0 <= k < |Cast(vs, h, vote)| ==>
              exists i :: 0 <= i < |vs| && vote(vs[i].id, h) == Some(Cast(vs, h, vote)[k])
  {
    if vs != [] {
      var init := vs[..|vs| - 1];
      CastFromRoster(init, h, vote);
      forall k | 0 <= k < |Cast(vs, h, vote)|
        ensures exists i :: 0 <= i < |vs| && vote(vs[i].id, h) == Some(Cast(vs, h, vote)[k])
      {
        if k < |Cast(init, h, vote)| {
          var i :| 0 <= i < |init| && vote(init[i].id, h) == Some(Cast(init, h, vote)[k]);
          assert vs[i] == init[i];
        } else {
          assert vote(vs[|vs| - 1].id, h) == Some(Cast(vs, h, vote)[k]);
        }
      }
    }
  }

  /** Every validator whose oracle answers with a vote contributes one: the
      number cast is the number of validators that answered. */
  lemma {:induction false} CastCountsAnswers(vs: seq<ValidatorInfo>, h: string, vote: (nat, string) -> Option<FC.Vote>)
    ensures |Cast(vs, h, vote)| == |set i | 0 <= i < |vs| && vote(vs[i].id, h).Some?|
  {
    var answered := set i | 0 <= i < |vs| && vote(vs[i].id, h).Some?;
    if vs != [] {
      var n := |vs| - 1;
      var init := vs[..n];
      CastCountsAnswers(init, h, vote);
      var before := set i | 0 <= i < |init| && vote(init[i].id, h).Some?;
      if vote(vs[n].id, h).Some? {
        assert answered == before + {n};
      } else {
        assert answered == before;
      }
    }
  }

  /** The finalization test on the exact share agrees with an integer test:
      with the default threshold 0.67 a block is finalized exactly when at
      least 67 votes are cast per 100 validators. */
  lemma ThresholdAsCount(cast: nat, total: nat)
    requires total > 0
    ensures (cast as real / total as real >= 0.67) <==> 100 * cast >= 67 * total
  {
    var c, t := cast as real, total as real;
    var q := c / t;
    assert q * t == c;
    MulSign(q - 0.67, t);
    assert (q - 0.67) * t == q * t - 0.67 * t;
  }

  /** Adding the divisor once leaves the remainder as it is. */
  lemma ModShift(a: int, n: int)
    requires n > 0
    ensures (a + n) % n == a % n
  {
    var q, r := a / n, a % n;
    var q', r' := (a + n) / n, (a + n) % n;
    var k := q + 1 - q';
    assert k * n == (q + 1) * n - q' * n;
    assert (q + 1) * n == q * n + n;
    assert k * n == r' - r;
    if k >= 1 {
      MulAtLeast(k, n);
    }
  }

  /** A non-negative number below the divisor is its own remainder. */
  lemma ModSmall(a: int, n: int)
    requires 0 <= a < n
    ensures a % n == a
  {
    var q := a / n;
    assert a == q * n + a % n;
    if q >= 1 {
      MulAtLeast(q, n);
    } else if q <= -1 {
      MulAtLeast(-q, n);
    }
  }

  lemma MulAtLeast(k: int, n: int)
    requires k >= 1 && n > 0
    ensures k * n >= n
  {
    assert k * n == (k - 1) * n + n;
  }

  class Engine {
    const validators: seq<ValidatorInfo>
    const forkChoice: FC.ForkChoice
    const quorumThreshold: real

    constructor (validators: seq<ValidatorInfo>, forkChoice: FC.ForkChoice, quorumThreshold: real := 0.67)
      ensures this.validators == validators && this.forkChoice == forkChoice
      ensures this.quorumThreshold == quorumThreshold
    {
      this.validators := validators;
      this.forkChoice := forkChoice;
      this.quorumThreshold := quorumThreshold;
    }

    /** The proposer of `slot`: round robin over the roster. */
    function Proposer(slot: int): ValidatorInfo
      requires |validators| > 0
    {
      validators[slot % |validators|]
    }

    /** The proposers of consecutive slots go round the roster in its order,
        starting over every `len(validators)` slots. */
    lemma ProposerRoundRobin(slot: int)
      requires |validators| > 0
      ensures Proposer(slot) in validators
      ensures 0 <= slot < |validators| ==> Proposer(slot) == validators[slot]
      ensures Proposer(slot + |validators|) == Proposer(slot)
    {
      var n := |validators|;
      var i := slot % n;
      assert Proposer(slot) == validators[i] && validators[i] in validators;
      ModShift(slot, n);
      if 0 <= slot < n {
        ModSmall(slot, n);
      }
    }

    /** `run_slot`: the block is stored in the fork choice first, then every
        vote that comes back is registered once against the block's hash and
        counted; the result reports the share of votes and whether it reaches
        the threshold. `hash` is the new block's hash and `vote` answers for
        `Validator.vote`. An empty roster raises `ZeroDivisionError` in the
        source and is excluded. */
    method RunSlot(parentHash: string, slot: int, hash: string, vote: (nat, string) -> Option<FC.Vote>)
      returns (r: SlotResult)
      requires |validators| > 0
      requires forkChoice.Valid()
      modifies forkChoice
      ensures forkChoice.Valid()
      ensures forkChoice.blocks == old(forkChoice.blocks)[hash := FC.Block(parentHash, Proposer(slot).id, slot, hash)]
      ensures forkChoice.votes == Registered(old(forkChoice.votes), hash, Cast(validators, hash, vote))
      ensures forkChoice.voteOrder
              == OrderAfter(old(forkChoice.votes), old(forkChoice.voteOrder), hash, Cast(validators, hash, vote))
      ensures r.slot == slot && r.blockHash == hash
      ensures r.quorum == |Cast(validators, hash, vote)| as real / |validators| as real
      ensures r.finalized <==> r.quorum >= quorumThreshold
    {
      var proposer := validators[slot % |validators|];
      var block := FC.Block(parentHash, proposer.id, slot, hash);
      forkChoice.AddBlock(block);
      var votes := CollectVotes(hash, vote);
      var quorum := |votes| as real / |validators| as real;
      r := SlotResult(slot, hash, quorum, quorum >= quorumThreshold);
    }

    /** The voting loop of `run_slot`: each validator in turn is asked for a
        vote on `hash`, and each vote that comes back is registered and
        collected. The stored blocks stay as they are. */
    /** One `register_vote` of that loop, seen from the lists before it. */
    method Register(hash: string, v: FC.Vote, ghost votes0: map<string, seq<FC.Vote>>, ghost order0: seq<string>,
                    ghost cast: seq<FC.Vote>)
      requires forkChoice.Valid()
      requires forkChoice.votes == Registered(votes0, hash, cast)
      requires forkChoice.voteOrder == OrderAfter(votes0, order0, hash, cast)
      modifies forkChoice
      ensures forkChoice.Valid() && forkChoice.blocks == old(forkChoice.blocks)
      ensures forkChoice.votes == Registered(votes0, hash, cast + [v])
      ensures forkChoice.voteOrder == OrderAfter(votes0, order0, hash, cast + [v])
    {
      RegisteredSnoc(votes0, hash, cast, v);
      OrderAfterSnoc(votes0, order0, hash, cast, v);
      forkChoice.RegisterVote(v, hash);
    }

    method CollectVotes(hash: string, vote: (nat, string) -> Option<FC.Vote>) returns (votes: seq<FC.Vote>)
      requires forkChoice.Valid()
      modifies forkChoice
      ensures forkChoice.Valid()
      ensures forkChoice.blocks == old(forkChoice.blocks)
      ensures forkChoice.votes == Registered(old(forkChoice.votes), hash, Cast(validators, hash, vote))
      ensures forkChoice.voteOrder
              == OrderAfter(old(forkChoice.votes), old(forkChoice.voteOrder), hash, Cast(validators, hash, vote))
      ensures votes == Cast(validators, hash, vote)
    {
      votes := [];
      var i := 0;
      while i < |validators|
        invariant 0 <= i <= |validators|
        invariant forkChoice.Valid()
        invariant forkChoice.blocks == old(forkChoice.blocks)
        invariant votes == Cast(validators[..i], hash, vote)
        invariant forkChoice.votes == Registered(old(forkChoice.votes), hash, votes)
        invariant forkChoice.voteOrder == OrderAfter(old(forkChoice.votes), old(forkChoice.voteOrder), hash, votes)
      {
        assert validators[..i + 1][..i] == validators[..i];
        var v := vote(validators[i].id, hash);
        if v.Some? {
          Register(hash, v.value, old(forkChoice.votes), old(forkChoice.voteOrder), votes);
          votes := votes + [v.value];
        }
        i := i + 1;
      }
      assert validators[..i] == validators;
    }
  }
}
