/** The first simulator, `server.py`: ten validators, one block appended per
    slot (sometimes declared a fork of a recent slot), finalization by a
    floor quorum of non-faulty votes, and a head that names the highest slot
    holding a finalized block. The module globals are the fields of one
    `LegacySimulator` object; each endpoint is one atomic method. */
module LegacyServer {
  import opened Common

  const NumValidators: nat := 10
  const QuorumRatio: real := 2.0 / 3.0
  /** `int(NUM_VALIDATORS * QUORUM_RATIO)`: the product truncated toward zero. */
  const QuorumVotes: int := (NumValidators as real * QuorumRatio).Floor
  /** Probability of the fork branch of `simulate_slot`. */
  const ForkProbability: real := 0.2

  datatype Validator = Validator(id: int, faulty: bool)

  /** A block dictionary. `parent` is the decimal string of a slot number,
      as the source stores it. */
  datatype Block = Block(slot: int, votes: seq<int>, finalized: bool, parent: string)

  /** `head_slot`: None at start, the integer slot of a finalized block, or
      the string form of the current slot when no block is finalized. */
  datatype Head = Unset | SlotNumber(n: int) | SlotText(s: string)

  /** The ids of the non-faulty validators, in roster order. */
  function NonFaulty(vs: seq<Validator>): seq<int>
  {
    if vs == [] then []
    else NonFaulty(vs[..|vs| - 1]) + (if vs[|vs| - 1].faulty then [] else [vs[|vs| - 1].id])
  }

  /** An id is among the votes exactly when some non-faulty validator has it. */
  lemma {:induction false} NonFaultyMembers(vs: seq<Validator>, x: int)
    ensures x in NonFaulty(vs) <==> exists i :: 0 <= i < |vs| && !vs[i].faulty && vs[i].id == x
  {
    if vs != [] {
      var init := vs[..|vs| - 1];
      NonFaultyMembers(init, x);
      if exists i :: 0 <= i < |init| && !init[i].faulty && init[i].id == x {
        var i :| 0 <= i < |init| && !init[i].faulty && init[i].id == x;
        assert vs[i] == init[i];
      }
    }
  }

  /** With the roster in id order, the votes come out in increasing id order
      and there is one vote per non-faulty validator. */
  lemma {:induction false} NonFaultyOrdered(vs: seq<Validator>)
    requires forall i :: 0 <= i < |vs| ==> vs[i].id == i
    ensures StrictlyIncreasing(NonFaulty(vs))
    ensures forall k :: 0 <= k < |NonFaulty(vs)| ==> 0 <= NonFaulty(vs)[k] < |vs|
  {
    if vs != [] {
      var init := vs[..|vs| - 1];
      NonFaultyOrdered(init);
    }
  }

  /** `compute_finalization`: at least `QuorumVotes` votes. */
  function ComputeFinalization(votes: seq<int>): (r: bool)
    ensures r <==> |votes| >= 6
  {
    |votes| >= QuorumVotes
  }

  /** The floor quorum of six finalizes a block that holds less than two
      thirds of the ten votes; the ceiling quorum of `server2.py` would need
      seven. */
  lemma FloorQuorumBelowTwoThirds()
    ensures ComputeFinalization([0, 1, 2, 3, 4, 5])
    ensures 3 * 6 < 2 * NumValidators
    ensures !ComputeFinalization([0, 1, 2, 3, 4])
  {
  }

  function IdOrder(n: nat): seq<Validator>
    ensures |IdOrder(n)| == n
    ensures forall i :: 0 <= i < n ==> IdOrder(n)[i] == Validator(i, false)
  {
    if n == 0 then [] else IdOrder(n - 1) + [Validator(n - 1, false)]
  }

  /** `chain.setdefault(str(slot), [])`: the blocks of `slot`, or none. */
  function BlocksAt(chain: map<int, seq<Block>>, slot: int): seq<Block> {
    if slot in chain then chain[slot] else []
  }

  predicate HasFinalized(bs: seq<Block>) {
    exists k :: 0 <= k < |bs| && bs[k].finalized
  }

  /** The index of the first validator whose id equals `vid`; a missing id
      (`None`) matches nobody. */
  function FirstWithId(vs: seq<Validator>, vid: Option<int>): (r: Option<nat>)
    ensures r.Some? ==> r.value < |vs| && Some(vs[r.value].id) == vid
    ensures r.Some? ==> forall j :: 0 <= j < r.value ==> Some(vs[j].id) != vid
    ensures r.None? ==> forall j :: 0 <= j < |vs| ==> Some(vs[j].id) != vid
  {
    if vs == [] then None
    else if Some(vs[0].id) == vid then Some(0)
    else match FirstWithId(vs[1..], vid)
      case None => None
      case Some(k) => Some(k + 1)
  }

  /** The roster after `toggle_fault` with `vid`. */
  function Toggled(vs: seq<Validator>, vid: Option<int>): seq<Validator>
  {
    match FirstWithId(vs, vid)
      case None => vs
      case Some(i) => vs[i := vs[i].(faulty := !vs[i].faulty)]
  }

  /** Toggling flips only the first validator with the id, leaves every id in
      place, and toggling twice restores the roster. */
  lemma ToggledEffect(vs: seq<Validator>, vid: Option<int>)
    ensures |Toggled(vs, vid)| == |vs|
    ensures forall j :: 0 <= j < |vs| ==> Toggled(vs, vid)[j].id == vs[j].id
    ensures forall j :: 0 <= j < |vs| ==>
              (Toggled(vs, vid)[j].faulty != vs[j].faulty <==> FirstWithId(vs, vid) == Some(j))
    ensures Toggled(Toggled(vs, vid), vid) == vs
  {
    match FirstWithId(vs, vid)
      case None =>
      case Some(i) =>
        var ws := Toggled(vs, vid);
        forall j | 0 <= j < |ws| ensures ws[j].id == vs[j].id { }
        FirstWithIdAt(ws, vid, i);
  }

  /** The first matching position is the one `FirstWithId` reports. */
  lemma {:induction false} FirstWithIdAt(vs: seq<Validator>, vid: Option<int>, i: nat)
    requires i < |vs| && Some(vs[i].id) == vid
    requires forall j :: 0 <= j < i ==> Some(vs[j].id) != vid
    ensures FirstWithId(vs, vid) == Some(i)
  {
    if i > 0 {
      FirstWithIdAt(vs[1..], vid, i - 1);
    }
  }

  /** Every key of `chain` is a slot in `1..cur`. */
  ghost predicate SlotsInRange(cur: int, chain: map<int, seq<Block>>) {
    forall s :: s in chain ==> 1 <= s <= cur
  }

  /** Every block sits under its own slot. */
  ghost predicate SlotsMatch(chain: map<int, seq<Block>>) {
    forall s, k :: s in chain && 0 <= k < |chain[s]| ==> chain[s][k].slot == s
  }

  /** `fin` is the highest slot holding a finalized block, or -1 if none does. */
  ghost predicate FinalizedIsLatest(fin: int, chain: map<int, seq<Block>>) {
    && (fin == -1 <==> forall s :: s in chain ==> !HasFinalized(chain[s]))
    && (fin != -1 ==>
          && fin in chain && HasFinalized(chain[fin])
          && forall s :: s in chain && s > fin ==> !HasFinalized(chain[s]))
  }

  /** What `update_head` establishes: the head is the highest slot holding a
      finalized block, or the string of the current slot if there is none. */
  ghost predicate HeadIsLatest(cur: nat, chain: map<int, seq<Block>>, head: Head) {
    if exists s :: s in chain && HasFinalized(chain[s]) then
      && head.SlotNumber? && head.n in chain && HasFinalized(chain[head.n])
      && forall s :: s in chain && s > head.n ==> !HasFinalized(chain[s])
    else
      head == SlotText(NatToString(cur))
  }

  /** Appending the block of the next slot keeps the slots in range and under
      their keys, and the finalized slot moves to the new slot exactly when
      the new block is finalized. */
  lemma AppendBlock(cur: nat, fin: int, chain: map<int, seq<Block>>, block: Block)
    requires SlotsInRange(cur, chain) && SlotsMatch(chain) && FinalizedIsLatest(fin, chain)
    requires block.slot == cur + 1
    ensures cur + 1 !in chain
    ensures var chain' := chain[cur + 1 := [block]];
      && SlotsInRange(cur + 1, chain') && SlotsMatch(chain')
      && FinalizedIsLatest(if block.finalized then cur + 1 else fin, chain')
  {
    var chain' := chain[cur + 1 := [block]];
    assert chain'[cur + 1] == [block];
    if block.finalized {
      assert chain'[cur + 1][0].finalized;
    }
    assert forall s :: s in chain' && s != cur + 1 ==> s in chain && chain'[s] == chain[s];
  }

  /** With the finalized slot maintained, the head `update_head` computes
      names that slot, or the current slot's string when nothing is
      finalized. */
  lemma HeadAgreesWithFinalized(cur: nat, fin: int, chain: map<int, seq<Block>>, head: Head)
    requires FinalizedIsLatest(fin, chain) && HeadIsLatest(cur, chain, head)
    ensures head == if fin != -1 then SlotNumber(fin) else SlotText(NatToString(cur))
  {
    if fin != -1 {
      assert HasFinalized(chain[fin]);
      assert HasFinalized(chain[head.n]);
    }
  }

  class LegacySimulator {
    var currentSlot: nat
    var finalizedSlot: int
    var validators: seq<Validator>
    /** `chain`, keyed by slot number; the source keys it by the decimal
        string of the slot, a one-to-one encoding (`NatToStringInjective`). */
    var chain: map<int, seq<Block>>
    var head: Head

    /** Blocks sit under their own slot, slots lie in `1..currentSlot`,
        `finalizedSlot` is the highest slot with a finalized block (or -1),
        and once a slot has run the head agrees with it. */
    ghost predicate Valid()
      reads this
    {
      && SlotsInRange(currentSlot, chain)
      && SlotsMatch(chain)
      && FinalizedIsLatest(finalizedSlot, chain)
      && (chain == map[] ==> head == Unset)
      && (chain != map[] ==>
            head == if finalizedSlot != -1 then SlotNumber(finalizedSlot) else SlotText(NatToString(currentSlot)))
    }

    /** The module-level initial state. */
    constructor ()
      ensures Valid()
      ensures currentSlot == 0 && finalizedSlot == -1 && chain == map[] && head == Unset
      ensures validators == IdOrder(NumValidators)
    {
      currentSlot := 0;
      finalizedSlot := -1;
      validators := IdOrder(NumValidators);
      chain := map[];
      head := Unset;
    }

    /** `select_votes`: the loop over the roster; the random delay only
        sleeps, so the result is the non-faulty ids in roster order. */
    method SelectVotes() returns (votes: seq<int>)
      ensures votes == NonFaulty(validators)
    {
      votes := [];
      var i := 0;
      while i < |validators|
        invariant 0 <= i <= |validators|
        invariant votes == NonFaulty(validators[..i])
      {
        assert validators[..i + 1][..i] == validators[..i];
        if !validators[i].faulty {
          votes := votes + [validators[i].id];
        }
        i := i + 1;
      }
      assert validators[..i] == validators;
    }

    /** `create_block`: a block in `slot` carrying the current votes. */
    method CreateBlock(slot: int, parent: string) returns (b: Block)
      ensures b.slot == slot && b.parent == parent
      ensures forall x :: x in b.votes <==> exists i :: 0 <= i < |validators| && !validators[i].faulty && validators[i].id == x
      ensures b.votes == NonFaulty(validators)
      ensures b.finalized <==> |b.votes| >= 6
    {
      var votes := SelectVotes();
      forall x ensures x in votes <==> exists i :: 0 <= i < |validators| && !validators[i].faulty && validators[i].id == x {
        NonFaultyMembers(validators, x);
      }
      b := Block(slot, votes, ComputeFinalization(votes), parent);
    }

    /** `update_head`: scan the slots from the highest down and stop at the
        first finalized block. */
    method UpdateHead()
      requires SlotsMatch(chain)
      modifies this`head
      ensures HeadIsLatest(currentSlot, chain, head)
    {
      var rem := chain.Keys;
      while rem != {}
        invariant rem <= chain.Keys
        invariant forall s :: s in chain && s !in rem ==> !HasFinalized(chain[s])
        invariant forall s, t :: s in rem && t in chain && t !in rem ==> s < t
        decreases |rem|
      {
        MaxExists(rem);
        assert (forall z :: z !in rem) ==> rem == {};
        var s :| s in rem && forall t :: t in rem ==> t <= s;
        var bs := chain[s];
        var j := 0;
        while j < |bs|
          invariant 0 <= j <= |bs|
          invariant forall k :: 0 <= k < j ==> !bs[k].finalized
        {
          if bs[j].finalized {
            head := SlotNumber(bs[j].slot);
            return;
          }
          j := j + 1;
        }
        rem := rem - {s};
      }
      head := SlotText(NatToString(currentSlot));
    }

    /** The first part of `simulate_slot`, before `update_head`. `u` is the
        `random.random()` draw and `forkPick` the `random.randint` draw of the
        fork branch, which lies in `[max(1, cur - 3), cur - 1]` for the new
        slot `cur`. One block is appended in the new slot, declared a child
        of `forkPick` on the fork branch and of the previous slot otherwise,
        and the finalized slot follows it. */
    method AdvanceSlot(u: real, forkPick: int) returns (block: Block)
      requires Valid()
      requires u < ForkProbability && currentSlot + 1 > 1 ==> Max(1, currentSlot - 2) <= forkPick <= currentSlot
      modifies this`currentSlot, this`chain, this`finalizedSlot
      ensures SlotsInRange(currentSlot, chain) && SlotsMatch(chain) && FinalizedIsLatest(finalizedSlot, chain)
      ensures currentSlot == old(currentSlot) + 1
      ensures old(currentSlot) + 1 !in old(chain) && chain == old(chain)[currentSlot := [block]]
      ensures block.slot == currentSlot && block.votes == NonFaulty(validators)
      ensures block.finalized <==> |NonFaulty(validators)| >= 6
      ensures block.parent == NatToString(if u < ForkProbability && currentSlot > 1 then forkPick else currentSlot - 1)
      ensures finalizedSlot == if block.finalized then currentSlot else old(finalizedSlot)
    {
      var cur := currentSlot + 1;
      if u < ForkProbability && cur > 1 {
        block := CreateBlock(cur, NatToString(forkPick));
      } else {
        block := CreateBlock(cur, NatToString(cur - 1));
      }
      var fin0, chain0 := finalizedSlot, chain;
      AppendBlock(cur - 1, fin0, chain0, block);
      var bs: seq<Block> := BlocksAt(chain0, cur) + [block];
      assert bs == [block] by {
        assert BlocksAt(chain0, cur) == [];
      }
      var fin := fin0;
      var i := 0;
      while i < |bs|
        invariant 0 <= i <= |bs|
        invariant fin == if exists k :: 0 <= k < i && bs[k].finalized then cur else fin0
      {
        if bs[i].finalized {
          fin := cur;
        }
        i := i + 1;
      }
      assert fin == if block.finalized then cur else fin0;
      currentSlot, chain, finalizedSlot := cur, chain0[cur := bs], fin;
    }

    /** `simulate_slot`: the new slot's block is appended, then the head is
        updated; the list of blocks in the new slot is returned. */
    method SimulateSlot(u: real, forkPick: int) returns (added: seq<Block>)
      requires Valid()
      requires u < ForkProbability && currentSlot + 1 > 1 ==> Max(1, currentSlot - 2) <= forkPick <= currentSlot
      modifies this
      ensures Valid()
      ensures HeadIsLatest(currentSlot, chain, head)
      ensures currentSlot == old(currentSlot) + 1
      ensures validators == old(validators)
      ensures old(currentSlot) + 1 !in old(chain)
      ensures |added| == 1 && chain == old(chain)[currentSlot := added]
      ensures added[0].slot == currentSlot && added[0].votes == NonFaulty(validators)
      ensures added[0].finalized <==> |NonFaulty(validators)| >= 6
      ensures added[0].parent == NatToString(if u < ForkProbability && currentSlot > 1 then forkPick else currentSlot - 1)
      ensures finalizedSlot == if HasFinalized(added) then currentSlot else old(finalizedSlot)
    {
      var block := AdvanceSlot(u, forkPick);
      UpdateHead();
      added := [block];
      assert HasFinalized(added) <==> block.finalized;
      HeadAgreesWithFinalized(currentSlot, finalizedSlot, chain, head);
    }

    /** `toggle_fault`: flip `faulty` on the first validator whose id is
        `vid`; an unknown or missing id changes nothing. */
    method ToggleFault(vid: Option<int>)
      requires Valid()
      modifies this`validators
      ensures Valid()
      ensures validators == Toggled(old(validators), vid)
    {
      var i := 0;
      while i < |validators|
        invariant 0 <= i <= |validators|
        invariant forall j :: 0 <= j < i ==> Some(validators[j].id) != vid
        invariant validators == old(validators)
      {
        if Some(validators[i].id) == vid {
          FirstWithIdAt(validators, vid, i);
          validators := validators[i := validators[i].(faulty := !validators[i].faulty)];
          return;
        }
        i := i + 1;
      }
    }
  }
}
