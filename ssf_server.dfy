/** The block-tree simulator of `server2.py` as one object whose fields are
    the module globals: slot and epoch counters, the validator roster, the
    block tree with its per-slot index, the queue of delayed votes, the
    metrics and the three settings `/config` can change. Each endpoint and
    helper that changes state is a method; each is specified against the
    functions of `BlockTree`. Random draws come in as arguments. */
module SsfServer {
  import opened Common
  import opened BlockTree

  const NumValidators: nat := 19
  const SlotsPerEpoch: nat := 8
  const InitialMaxDelaySlots: int := 2
  const InitialForkAttackProb: real := 0.12
  const InitialQuorumRatio: real := 2.0 / 3.0

  /** An entry of `vote_events`. */
  datatype VoteEvent = VoteEvent(deliverSlot: int, validator: nat, blockId: BlockId, originSlot: int)

  datatype Metrics = Metrics(totalSlotsSimulated: nat, totalForks: nat, totalFinalizations: nat)

  /** What `simulate_one_slot` returns. */
  datatype SlotOutcome = SlotOutcome(slot: nat, createdBlocks: seq<BlockId>, appliedVotes: seq<(nat, BlockId)>)

  /** The draws of `random` one slot consumes: the proposer, the fork coin,
      the number of fork blocks, and per (block, validator) the vote delay
      and the coin that decides whether a delayed vote goes to the head. */
  datatype SlotDraws = SlotDraws(proposer: nat, forkCoin: real, numForks: nat,
                                 delay: (BlockId, nat) -> int, voteCoin: (BlockId, nat) -> real)

  /** The roster `api_reset` builds: ids `0..n-1`, nobody faulty or slashed,
      no latest message. */
  function FreshValidators(n: nat): (vs: seq<Validator>)
    ensures |vs| == n
    ensures forall i :: 0 <= i < n ==> vs[i] == Validator(i, false, false, None)
  {
    seq(n, i requires 0 <= i => Validator(i, false, false, None))
  }

  /** The id stored at index `i` of `blocks_in_slot[s]`: genesis heads slot 0,
      every other entry is `make_block_id(s, i)`. */
  function SlotBlockId(s: nat, i: nat): BlockId {
    if s == 0 && i == 0 then Genesis else MakeBlockId(s, i)
  }

  /** `blocks_in_slot.get(s, [])`. */
  function BlocksAt(bis: map<nat, seq<BlockId>>, s: nat): seq<BlockId> {
    if s in bis then bis[s] else []
  }

  /** Every entry of the per-slot index names the stored block of that slot
      and position. */
  ghost predicate BlocksIndexed(chain: Chain, bis: map<nat, seq<BlockId>>) {
    forall s, i :: s in bis && 0 <= i < |bis[s]| ==>
      bis[s][i] == SlotBlockId(s, i) && bis[s][i] in chain && chain[bis[s][i]].slot == s
  }

  /** Every stored block is listed under its slot. */
  ghost predicate BlocksListed(chain: Chain, bis: map<nat, seq<BlockId>>) {
    forall id {:trigger Listed(chain, bis, id)} :: Listed(chain, bis, id)
  }

  /** `id`, when stored, is listed under its slot. */
  ghost predicate Listed(chain: Chain, bis: map<nat, seq<BlockId>>, id: BlockId) {
    id in chain ==> chain[id].slot in bis && id in bis[chain[id].slot]
  }

  /** The next id `add_block` hands out for `slot` is not yet stored. */
  lemma FreshBlockId(chain: Chain, bis: map<nat, seq<BlockId>>, slot: nat)
    requires BlocksIndexed(chain, bis) && BlocksListed(chain, bis)
    ensures MakeBlockId(slot, |BlocksAt(bis, slot)|) !in chain
  {
    var id := MakeBlockId(slot, |BlocksAt(bis, slot)|);
    forall x | x in chain ensures x != id {
      assert Listed(chain, bis, x);
      var s := chain[x].slot;
      var j :| 0 <= j < |bis[s]| && bis[s][j] == x;
    }
  }

  /** The block-tree part of the simulator's invariant: a well-formed tree
      whose key order lists every stored id once, a per-slot index that
      agrees with it, and no block after slot `cur`. */
  ghost predicate TreeValid(chain: Chain, order: seq<BlockId>, bis: map<nat, seq<BlockId>>, cur: nat) {
    && WellFormed(chain)
    && Distinct(order) && (forall id :: id in chain <==> id in order)
    && BlocksIndexed(chain, bis) && BlocksListed(chain, bis)
    && (forall id :: id in chain ==> chain[id].slot <= cur)
  }

  /** Storing the block `add_block` makes keeps the tree valid when its parent
      is a stored block of an earlier slot and its slot is not after `cur`. */
  lemma AddBlockKeepsTree(chain: Chain, order: seq<BlockId>, bis: map<nat, seq<BlockId>>, cur: nat, b: Block)
    requires TreeValid(chain, order, bis, cur)
    requires b.id == MakeBlockId(b.slot, |BlocksAt(bis, b.slot)|) && b.slot <= cur
    requires b.parent.Some? && b.parent.value in chain && chain[b.parent.value].slot < b.slot
    ensures b.id !in chain
    ensures TreeValid(chain[b.id := b], order + [b.id], bis[b.slot := BlocksAt(bis, b.slot) + [b.id]], cur)
  {
    FreshBlockId(chain, bis, b.slot);
    var chain', order', bis' := chain[b.id := b], order + [b.id], bis[b.slot := BlocksAt(bis, b.slot) + [b.id]];
    assert Listed(chain, bis, Genesis);
    assert Genesis in chain && 0 in bis && Genesis in bis[0];
    NewBlockIndexed(chain, bis, b);
    forall id | id in chain' && id != Genesis ensures HasOlderParent(chain', id) {
      if id != b.id {
        assert HasOlderParent(chain, id);
      }
    }
    forall id | id in chain' ensures ParentOlder(chain', id) {
      if id != b.id && id != Genesis {
        assert HasOlderParent(chain, id);
      }
    }
    assert WellFormed(chain');
    forall id ensures Listed(chain', bis', id) {
      if id != b.id {
        assert Listed(chain, bis, id);
      }
    }
  }

  lemma NewBlockIndexed(chain: Chain, bis: map<nat, seq<BlockId>>, b: Block)
    requires BlocksIndexed(chain, bis) && 0 in bis && |bis[0]| > 0 && b.id !in chain
    requires b.id == MakeBlockId(b.slot, |BlocksAt(bis, b.slot)|)
    ensures BlocksIndexed(chain[b.id := b], bis[b.slot := BlocksAt(bis, b.slot) + [b.id]])
  {
    var chain', bis' := chain[b.id := b], bis[b.slot := BlocksAt(bis, b.slot) + [b.id]];
    forall s, i | s in bis' && 0 <= i < |bis'[s]|
      ensures bis'[s][i] == SlotBlockId(s, i) && bis'[s][i] in chain' && chain'[bis'[s][i]].slot == s
    {
      if s == b.slot && i == |BlocksAt(bis, b.slot)| {
        assert bis'[s][i] == b.id;
      } else {
        assert bis'[s][i] == bis[s][i];
      }
    }
  }

  /** The roster holds validators `0..18`, each at the index of its id. */
  predicate RosterValid(vs: seq<Validator>) {
    |vs| == NumValidators && forall i :: 0 <= i < |vs| ==> vs[i].id == i
  }

  /** Every queued vote names a validator of the roster. */
  predicate EventsValid(es: seq<VoteEvent>) {
    forall k :: 0 <= k < |es| ==> es[k].validator < NumValidators
  }

  /** Python `math.ceil` on an exact rational. */
  function Ceil(x: real): (c: int)
    ensures c as real - 1.0 < x <= c as real
  {
    -((-x).Floor)
  }

  /** `math.ceil(NUM_VALIDATORS * QUORUM_RATIO)`. */
  function QuorumNeeded(ratio: real): int {
    Ceil(NumValidators as real * ratio)
  }

  /** With the initial ratio of two thirds, 13 of the 19 validators are needed. */
  lemma InitialQuorumIsThirteen()
    ensures QuorumNeeded(InitialQuorumRatio) == 13
  {
    assert NumValidators as real * InitialQuorumRatio == 38.0 / 3.0;
  }

  /** `[e for e in es if e["deliver_slot"] <= cur]`: the votes due now. */
  function Due(es: seq<VoteEvent>, cur: int): (due: seq<VoteEvent>)
    ensures forall k :: 0 <= k < |due| ==> due[k].deliverSlot <= cur
    ensures EventsValid(es) ==> EventsValid(due)
  {
    if es == [] then []
    else Due(es[..|es| - 1], cur) + (if es[|es| - 1].deliverSlot <= cur then [es[|es| - 1]] else [])
  }

  /** `[e for e in es if e["deliver_slot"] > cur]`: the votes still in flight. */
  function Pending(es: seq<VoteEvent>, cur: int): (pending: seq<VoteEvent>)
    ensures forall k :: 0 <= k < |pending| ==> pending[k].deliverSlot > cur
    ensures EventsValid(es) ==> EventsValid(pending)
  {
    if es == [] then []
    else Pending(es[..|es| - 1], cur) + (if es[|es| - 1].deliverSlot > cur then [es[|es| - 1]] else [])
  }

  /** The due and the pending votes together are the queue: nothing is lost
      and nothing added. */
  lemma {:induction false} DuePendingPartition(es: seq<VoteEvent>, cur: int)
    ensures multiset(Due(es, cur)) + multiset(Pending(es, cur)) == multiset(es)
  {
    if es != [] {
      DuePendingPartition(es[..|es| - 1], cur);
      PartitionSnoc(es, cur);
    }
  }

  /** The last queued vote goes to exactly one of the two lists. */
  lemma PartitionSnoc(es: seq<VoteEvent>, cur: int)
    requires es != []
    requires var init := es[..|es| - 1];
      multiset(Due(init, cur)) + multiset(Pending(init, cur)) == multiset(init)
    ensures multiset(Due(es, cur)) + multiset(Pending(es, cur)) == multiset(es)
  {
    var init, x := es[..|es| - 1], es[|es| - 1];
    assert es == init + [x];
    var toDue := x.deliverSlot <= cur;
    assert Due(es, cur) == Due(init, cur) + (if toDue then [x] else []);
    assert Pending(es, cur) == Pending(init, cur) + (if toDue then [] else [x]);
    MultisetSplitSnoc(Due(init, cur), Pending(init, cur), init, x, toDue);
  }

  /** Appending `x` to one of two lists that split `init` splits `init + [x]`. */
  lemma MultisetSplitSnoc<T>(d: seq<T>, p: seq<T>, init: seq<T>, x: T, toD: bool)
    requires multiset(d) + multiset(p) == multiset(init)
    ensures multiset(d + (if toD then [x] else [])) + multiset(p + (if toD then [] else [x])) == multiset(init + [x])
  {
    assert multiset(init + [x]) == multiset(init) + multiset{x};
    if toD {
      assert multiset(d + [x]) == multiset(d) + multiset{x};
      assert p + [] == p;
    } else {
      assert multiset(p + [x]) == multiset(p) + multiset{x};
      assert d + [] == d;
    }
  }

  /** Splitting a joined queue into due and pending votes splits each part. */
  lemma {:induction false} FilterAppend(a: seq<VoteEvent>, b: seq<VoteEvent>, cur: int)
    ensures Due(a + b, cur) == Due(a, cur) + Due(b, cur)
    ensures Pending(a + b, cur) == Pending(a, cur) + Pending(b, cur)
  {
    if b == [] {
      assert a + b == a;
    } else {
      var n := |b| - 1;
      FilterAppend(a, b[..n], cur);
      assert (a + b)[..|a + b| - 1] == a + b[..n];
      var x := b[n];
      AppendAssoc(Due(a, cur), Due(b[..n], cur), if x.deliverSlot <= cur then [x] else []);
      AppendAssoc(Pending(a, cur), Pending(b[..n], cur), if x.deliverSlot > cur then [x] else []);
    }
  }

  /** The votes still pending at `cur` stay pending there, and none is due. */
  lemma {:induction false} PendingStays(es: seq<VoteEvent>, cur: int)
    ensures Pending(Pending(es, cur), cur) == Pending(es, cur)
    ensures Due(Pending(es, cur), cur) == []
  {
    if es != [] {
      var n := |es| - 1;
      PendingStays(es[..n], cur);
      var x := es[n];
      var tail := if x.deliverSlot > cur then [x] else [];
      FilterAppend(Pending(es[..n], cur), tail, cur);
    }
  }

  /** The queue after a slot's second delivery: the old votes that were not
      yet due, in order, then the new ones not yet due; only new votes are
      due. */
  lemma QueueAfterDelivery(earlier: seq<VoteEvent>, added: seq<VoteEvent>, cur: int)
    ensures Pending(Pending(earlier, cur) + added, cur) == Pending(earlier, cur) + Pending(added, cur)
    ensures Due(Pending(earlier, cur) + added, cur) == Due(added, cur)
  {
    FilterAppend(Pending(earlier, cur), added, cur);
    PendingStays(earlier, cur);
  }

  /** A block that differs from `a` at most by having received more votes. */
  predicate VotesGrown(a: Block, b: Block) {
    && b.id == a.id && b.slot == a.slot && b.parent == a.parent
    && b.finalized == a.finalized && b.proposer == a.proposer
    && a.votesReceived <= b.votesReceived
  }

  /** A validator that differs from `v` at most in its latest message. */
  predicate SameValidator(v: Validator, w: Validator) {
    w.id == v.id && w.faulty == v.faulty && w.slashed == v.slashed
  }

  /** Two rosters of the same length whose validators agree pairwise. */
  predicate SameRoster(a: seq<Validator>, b: seq<Validator>) {
    |b| == |a| && forall i :: 0 <= i < |a| ==> SameValidator(a[i], b[i])
  }

  /** The block a queued vote lands on: its own block when stored, otherwise
      `latest`, the stored block greatest by (slot, id). */
  function Target(chain: Chain, bid: BlockId, latest: BlockId): (t: BlockId)
  {
    if bid in chain then bid else latest
  }

  /** Only the keys and slots of the chain decide which block is the latest. */
  lemma LatestSameKeys(chain: Chain, chain': Chain, l: BlockId)
    requires IsLatest(chain, l) && chain'.Keys == chain.Keys
    requires forall id :: id in chain ==> chain'[id].slot == chain[id].slot
    ensures IsLatest(chain', l)
  {
    forall x | x in chain' && x != l ensures KeyBelow(chain', x, l) {
      assert KeyBelow(chain, x, l);
    }
  }

  /** The chain, the roster and the `applied` list while `apply_due_votes`
      works through its events. */
  datatype Tally = Tally(chain: Chain, validators: seq<Validator>, applied: seq<(nat, BlockId)>)

  /** One applied vote: the validator's latest message becomes (cur, target),
      its id joins the target's `votes_received`, and the pair is recorded. */
  function ApplyVote(t: Tally, e: VoteEvent, cur: nat, latest: BlockId): Tally
    requires latest in t.chain && e.validator < |t.validators|
  {
    Deliver(t, e.validator, Target(t.chain, e.blockId, latest), cur)
  }

  /** Validator `vid`'s vote delivered to the stored block `bid` at slot `cur`. */
  function Deliver(t: Tally, vid: nat, bid: BlockId, cur: nat): Tally
    requires bid in t.chain && vid < |t.validators|
  {
    Tally(t.chain[bid := t.chain[bid].(votesReceived := t.chain[bid].votesReceived + {vid})],
          t.validators[vid := t.validators[vid].(latestMessage := Some(Message(cur, bid)))],
          t.applied + [(vid, bid)])
  }

  /** The loop of `apply_due_votes` over the due events `es`, in order. Keys,
      slots, parents, flags and the roster's ids stay as they were; votes
      only grow; one pair is recorded per event. */
  function ApplyVotes(chain: Chain, vs: seq<Validator>, es: seq<VoteEvent>, cur: nat, latest: BlockId): (r: Tally)
    requires latest in chain
    requires forall k :: 0 <= k < |es| ==> es[k].validator < |vs|
    ensures r.chain.Keys == chain.Keys
    ensures |r.validators| == |vs| && |r.applied| == |es|
  {
    if es == [] then Tally(chain, vs, [])
    else
      var t := ApplyVotes(chain, vs, es[..|es| - 1], cur, latest);
      ApplyVote(t, es[|es| - 1], cur, latest)
  }

  /** Applying votes keeps every block's id, slot, parent, flag and proposer
      and only adds votes; it keeps every validator's id and flags. */
  lemma {:induction false} ApplyVotesShape(chain: Chain, vs: seq<Validator>, es: seq<VoteEvent>, cur: nat, latest: BlockId)
    requires latest in chain
    requires forall k :: 0 <= k < |es| ==> es[k].validator < |vs|
    ensures var r := ApplyVotes(chain, vs, es, cur, latest);
      && (forall id :: id in chain ==> VotesGrown(chain[id], r.chain[id]))
      && (forall i :: 0 <= i < |vs| ==> SameValidator(vs[i], r.validators[i]))
  {
    if es != [] {
      ApplyVotesShape(chain, vs, es[..|es| - 1], cur, latest);
    }
  }

  /** `max(chain.keys(), key=lambda k: (chain[k]["slot"], k))`: the stored
      block greatest by (slot, id), found by one pass over the keys. */
  method LatestKey(chain: Chain, order: seq<BlockId>) returns (k: BlockId)
    requires Genesis in chain && forall id :: id in chain <==> id in order
    ensures IsLatest(chain, k)
  {
    assert Genesis in order;
    k := order[0];
    var i := 1;
    while i < |order|
      invariant 1 <= i <= |order| && k in chain
      invariant forall j :: 0 <= j < i && order[j] != k ==> KeyBelow(chain, order[j], k)
    {
      var x := order[i];
      StrBelowOrder(IdText(k), IdText(x));
      IdTextInjective(k, x);
      if KeyBelow(chain, k, x) {
        forall j | 0 <= j < i && order[j] != x ensures KeyBelow(chain, order[j], x) {
          if order[j] != k {
            StrBelowOrder(IdText(order[j]), IdText(k));
            if chain[order[j]].slot == chain[k].slot == chain[x].slot {
              StrBelowTransitive(IdText(order[j]), IdText(k), IdText(x));
            }
          }
        }
        k := x;
      }
      i := i + 1;
    }
    forall x | x in chain && x != k ensures KeyBelow(chain, x, k) {
      var j :| 0 <= j < |order| && order[j] == x;
    }
  }

  /** The validators whose due votes land on block `id`. */
  function VotersFor(chain: Chain, es: seq<VoteEvent>, id: BlockId, latest: BlockId): set<nat>
  {
    set k | 0 <= k < |es| && Target(chain, es[k].blockId, latest) == id :: es[k].validator
  }

  /** The voters of `id` among `es` are those among all but the last event,
      plus the last event's validator when its vote lands on `id`. */
  lemma VotersForSnoc(chain: Chain, es: seq<VoteEvent>, id: BlockId, latest: BlockId)
    requires es != []
    ensures var n := |es| - 1;
      VotersFor(chain, es, id, latest)
      == VotersFor(chain, es[..n], id, latest)
         + (if Target(chain, es[n].blockId, latest) == id then {es[n].validator} else {})
  {
    var n := |es| - 1;
    var before := VotersFor(chain, es[..n], id, latest);
    var last: set<nat> := if Target(chain, es[n].blockId, latest) == id then {es[n].validator} else {};
    forall v | v in VotersFor(chain, es, id, latest) ensures v in before + last {
      var k :| 0 <= k < |es| && Target(chain, es[k].blockId, latest) == id && es[k].validator == v;
      if k < n { assert es[..n][k] == es[k]; }
    }
    forall v | v in before ensures v in VotersFor(chain, es, id, latest) {
      var k :| 0 <= k < n && Target(chain, es[..n][k].blockId, latest) == id && es[..n][k].validator == v;
      assert es[k] == es[..n][k];
    }
  }

  /** The k-th recorded pair is the k-th event's validator and the block its
      vote lands on. */
  lemma {:induction false} ApplyVotesApplied(chain: Chain, vs: seq<Validator>, es: seq<VoteEvent>, cur: nat, latest: BlockId)
    requires latest in chain
    requires forall k :: 0 <= k < |es| ==> es[k].validator < |vs|
    ensures forall k :: 0 <= k < |es| ==>
      ApplyVotes(chain, vs, es, cur, latest).applied[k] == (es[k].validator, Target(chain, es[k].blockId, latest))
  {
    if es != [] {
      var n := |es| - 1;
      ApplyVotesApplied(chain, vs, es[..n], cur, latest);
      forall k | 0 <= k < n ensures es[..n][k] == es[k] { }
    }
  }

  /** Each block's `votes_received` gains exactly the validators whose due
      votes land on it. */
  lemma {:induction false} ApplyVotesTally(chain: Chain, vs: seq<Validator>, es: seq<VoteEvent>, cur: nat, latest: BlockId)
    requires latest in chain
    requires forall k :: 0 <= k < |es| ==> es[k].validator < |vs|
    ensures forall id :: id in chain ==>
      ApplyVotes(chain, vs, es, cur, latest).chain[id].votesReceived
      == chain[id].votesReceived + VotersFor(chain, es, id, latest)
  {
    if es == [] {
      forall id | id in chain ensures VotersFor(chain, es, id, latest) == {} { }
    } else {
      var n := |es| - 1;
      assert forall k :: 0 <= k < n ==> es[..n][k] == es[k];
      ApplyVotesTally(chain, vs, es[..n], cur, latest);
      forall id | id in chain
        ensures ApplyVotes(chain, vs, es, cur, latest).chain[id].votesReceived
                == chain[id].votesReceived + VotersFor(chain, es, id, latest)
      {
        ApplyVotesTallyStep(chain, vs, es, cur, latest, id);
      }
    }
  }

  /** The step of `ApplyVotesTally`: the last event adds its validator to
      the block it lands on. */
  lemma ApplyVotesTallyStep(chain: Chain, vs: seq<Validator>, es: seq<VoteEvent>, cur: nat, latest: BlockId, id: BlockId)
    requires latest in chain && id in chain && es != []
    requires forall k :: 0 <= k < |es| ==> es[k].validator < |vs|
    requires var n := |es| - 1;
      (forall k :: 0 <= k < n ==> es[..n][k].validator < |vs|)
      && ApplyVotes(chain, vs, es[..n], cur, latest).chain[id].votesReceived
         == chain[id].votesReceived + VotersFor(chain, es[..n], id, latest)
    ensures ApplyVotes(chain, vs, es, cur, latest).chain[id].votesReceived
            == chain[id].votesReceived + VotersFor(chain, es, id, latest)
  {
    var n := |es| - 1;
    var t := ApplyVotes(chain, vs, es[..n], cur, latest);
    assert ApplyVotes(chain, vs, es, cur, latest) == ApplyVote(t, es[n], cur, latest);
    assert Target(t.chain, es[n].blockId, latest) == Target(chain, es[n].blockId, latest);
    VotersForSnoc(chain, es, id, latest);
    ApplyVoteTally(t, es[n], cur, latest, id);
  }

  /** One delivered vote adds its validator to the block it lands on only. */
  lemma ApplyVoteTally(t: Tally, e: VoteEvent, cur: nat, latest: BlockId, id: BlockId)
    requires latest in t.chain && e.validator < |t.validators| && id in t.chain
    ensures ApplyVote(t, e, cur, latest).chain[id].votesReceived
            == t.chain[id].votesReceived + (if Target(t.chain, e.blockId, latest) == id then {e.validator} else {})
  {
  }

  /** A validator without a due vote keeps its entry unchanged. */
  lemma {:induction false} ApplyVotesSilent(chain: Chain, vs: seq<Validator>, es: seq<VoteEvent>, cur: nat, latest: BlockId, i: nat)
    requires latest in chain
    requires forall k :: 0 <= k < |es| ==> es[k].validator < |vs|
    requires i < |vs| && forall k :: 0 <= k < |es| ==> es[k].validator != i
    ensures ApplyVotes(chain, vs, es, cur, latest).validators[i] == vs[i]
  {
    if es != [] {
      var n := |es| - 1;
      assert forall k :: 0 <= k < n ==> es[..n][k] == es[k];
      ApplyVotesSilent(chain, vs, es[..n], cur, latest, i);
    }
  }

  /** A validator's latest message is the delivery, at slot `cur`, of its
      last due vote `es[k]`. */
  lemma {:induction false} ApplyVotesLatest(chain: Chain, vs: seq<Validator>, es: seq<VoteEvent>, cur: nat, latest: BlockId, k: nat)
    requires latest in chain
    requires forall j :: 0 <= j < |es| ==> es[j].validator < |vs|
    requires k < |es| && forall j :: k < j < |es| ==> es[j].validator != es[k].validator
    ensures ApplyVotes(chain, vs, es, cur, latest).validators[es[k].validator].latestMessage
            == Some(Message(cur, Target(chain, es[k].blockId, latest)))
  {
    var n := |es| - 1;
    if k < n {
      assert es[..n][k] == es[k];
      assert forall j :: k < j < n ==> es[..n][j] == es[j];
      ApplyVotesLatest(chain, vs, es[..n], cur, latest, k);
    }
  }

  /** The loop of `apply_due_votes` over the events it took off the queue.
      `latest` is the block a vote for a missing block falls back to. */
  method ApplyEvents(chain: Chain, vs: seq<Validator>, es: seq<VoteEvent>, cur: nat, latest: BlockId)
    returns (t: Tally)
    requires latest in chain
    requires forall k :: 0 <= k < |es| ==> es[k].validator < |vs|
    ensures t == ApplyVotes(chain, vs, es, cur, latest)
  {
    var c, validators, applied := chain, vs, [];
    var i := 0;
    while i < |es|
      invariant 0 <= i <= |es|
      invariant Tally(c, validators, applied) == ApplyVotes(chain, vs, es[..i], cur, latest)
    {
      assert es[..i + 1][..i] == es[..i];
      var e := es[i];
      var vid := e.validator;
      var bid := e.blockId;
      if bid !in c {
        bid := latest;
      }
      validators := validators[vid := validators[vid].(latestMessage := Some(Message(cur, bid)))];
      c := c[bid := c[bid].(votesReceived := c[bid].votesReceived + {vid})];
      applied := applied + [(vid, bid)];
      i := i + 1;
    }
    assert es[..i] == es;
    t := Tally(c, validators, applied);
  }

  /** The validators `schedule_votes_for_block` lets vote: neither faulty nor
      slashed, in roster order. */
  function Eligible(vs: seq<Validator>): (es: seq<Validator>)
    ensures forall v :: v in es <==> v in vs && !v.faulty && !v.slashed
    ensures |es| <= |vs|
  {
    if vs == [] then []
    else
      var v := vs[|vs| - 1];
      Eligible(vs[..|vs| - 1]) + (if v.faulty || v.slashed then [] else [v])
  }

  /** Where one validator's vote for `blockId` goes: with no delay to the new
      block; with a delay to the new block when the coin is below one half,
      else to the head the validator sees. */
  function VoteTarget(blockId: BlockId, d: int, coin: real, head: BlockId): BlockId
  {
    if d == 0 then blockId else if coin < 0.5 then blockId else head
  }

  /** The events `schedule_votes_for_block(blockId, origin)` appends, given
      each validator's delay draw and coin, and the head of the tree. */
  function Scheduled(vs: seq<Validator>, blockId: BlockId, origin: int,
                     delay: (BlockId, nat) -> int, coin: (BlockId, nat) -> real, head: BlockId): seq<VoteEvent>
  {
    if vs == [] then []
    else
      var v := vs[|vs| - 1];
      Scheduled(vs[..|vs| - 1], blockId, origin, delay, coin, head) +
        (if v.faulty || v.slashed then []
         else
           var d := delay(blockId, v.id);
           [VoteEvent(origin + d, v.id, VoteTarget(blockId, d, coin(blockId, v.id), head), origin)])
  }

  /** One event per eligible validator, in roster order, each stamped with
      the slot of the block it votes about. */
  lemma {:induction false} ScheduledVoters(vs: seq<Validator>, blockId: BlockId, origin: int,
                                           delay: (BlockId, nat) -> int, coin: (BlockId, nat) -> real, head: BlockId)
    ensures var es := Scheduled(vs, blockId, origin, delay, coin, head);
      && |es| == |Eligible(vs)|
      && (forall k :: 0 <= k < |es| ==> es[k].validator == Eligible(vs)[k].id && es[k].originSlot == origin)
  {
    if vs != [] {
      var n := |vs| - 1;
      ScheduledVoters(vs[..n], blockId, origin, delay, coin, head);
    }
  }

  /** Every event is delivered within `maxDelay` slots of `origin`; one
      delivered at once is for `blockId`, any other for `blockId` or `head`. */
  predicate TargetsWithin(es: seq<VoteEvent>, blockId: BlockId, origin: int, head: BlockId, maxDelay: int)
  {
    forall k :: 0 <= k < |es| ==>
      && origin <= es[k].deliverSlot <= origin + maxDelay
      && (es[k].deliverSlot == origin ==> es[k].blockId == blockId)
      && (es[k].blockId == blockId || es[k].blockId == head)
  }

  /** Each event is delivered `d` slots after `origin` with `d` that
      validator's draw, so within `[origin, origin + maxDelay]` when the draws
      are; a vote delivered at once is for the new block, any other is for the
      new block or the head. */
  lemma {:induction false} ScheduledTargets(vs: seq<Validator>, blockId: BlockId, origin: int,
                                            delay: (BlockId, nat) -> int, coin: (BlockId, nat) -> real, head: BlockId, maxDelay: int)
    requires forall k :: 0 <= k < |vs| ==> 0 <= delay(blockId, vs[k].id) <= maxDelay
    ensures TargetsWithin(Scheduled(vs, blockId, origin, delay, coin, head), blockId, origin, head, maxDelay)
  {
    if vs != [] {
      var n := |vs| - 1;
      assert forall k :: 0 <= k < n ==> vs[..n][k] == vs[k];
      ScheduledTargets(vs[..n], blockId, origin, delay, coin, head, maxDelay);
      var v := vs[n];
      var d := delay(blockId, v.id);
      assert 0 <= d <= maxDelay;
      var pre := Scheduled(vs[..n], blockId, origin, delay, coin, head);
      var all := Scheduled(vs, blockId, origin, delay, coin, head);
      if !(v.faulty || v.slashed) {
        var e := VoteEvent(origin + d, v.id, VoteTarget(blockId, d, coin(blockId, v.id), head), origin);
        assert all == pre + [e];
        assert e.blockId == blockId || e.blockId == head;
        assert e.deliverSlot == origin ==> e.blockId == blockId;
      } else {
        assert all == pre;
      }
    }
  }

  /** The stored blocks that are marked finalized. */
  ghost function FinalizedIds(chain: Chain): set<BlockId>
  {
    set id | id in chain && chain[id].finalized
  }

  /** What `try_finalize_block` does to the chain: a block that is not yet
      finalized and holds at least `q` votes becomes finalized. */
  function Finalize(chain: Chain, bid: BlockId, q: int): Chain
    requires bid in chain
  {
    var b := chain[bid];
    if !b.finalized && |b.votesReceived| >= q then chain[bid := b.(finalized := true)] else chain
  }

  /** Finalizing touches only the finalized flag of `bid`, never clears it,
      sets it exactly when the block has a quorum or had it already, adds at
      most `bid` to the finalized blocks, and a second attempt changes nothing. */
  lemma FinalizeEffect(chain: Chain, bid: BlockId, q: int)
    requires bid in chain
    ensures var c := Finalize(chain, bid, q);
      && c.Keys == chain.Keys
      && (forall id :: id in chain && id != bid ==> c[id] == chain[id])
      && c[bid] == chain[bid].(finalized := c[bid].finalized)
      && (c[bid].finalized <==> chain[bid].finalized || |chain[bid].votesReceived| >= q)
      && Finalize(c, bid, q) == c
  {
  }

  /** A successful attempt adds exactly one block to the finalized ones. */
  lemma {:induction false} FinalizeCount(chain: Chain, bid: BlockId, q: int)
    requires bid in chain
    ensures |FinalizedIds(Finalize(chain, bid, q))|
            == |FinalizedIds(chain)| + (if !chain[bid].finalized && |chain[bid].votesReceived| >= q then 1 else 0)
  {
    var c := Finalize(chain, bid, q);
    if !chain[bid].finalized && |chain[bid].votesReceived| >= q {
      assert FinalizedIds(c) == FinalizedIds(chain) + {bid};
    } else {
      assert c == chain;
    }
  }

  /** `try_finalize_block` applied to each stored id of `ids` in turn. */
  function FinalizeSeq(chain: Chain, ids: seq<BlockId>, q: int): (c: Chain)
    ensures c.Keys == chain.Keys
  {
    if ids == [] then chain
    else
      var c := FinalizeSeq(chain, ids[..|ids| - 1], q);
      var last := ids[|ids| - 1];
      if last in c then Finalize(c, last, q) else c
  }

  /** After trying every id of `ids`, a block is finalized exactly when it was
      already or it is among `ids` with a quorum; nothing else about any
      block changes. */
  lemma {:induction false} FinalizeSeqEffect(chain: Chain, ids: seq<BlockId>, q: int)
    ensures forall id :: id in chain ==>
      FinalizeSeq(chain, ids, q)[id]
      == chain[id].(finalized := chain[id].finalized || (id in ids && |chain[id].votesReceived| >= q))
  {
    if ids != [] {
      var n := |ids| - 1;
      FinalizeSeqEffect(chain, ids[..n], q);
      var c := FinalizeSeq(chain, ids[..n], q);
      if ids[n] in c {
        FinalizeEffect(c, ids[n], q);
      }
      assert forall id :: id in ids <==> id in ids[..n] || id == ids[n] by {
        assert ids == ids[..n] + [ids[n]];
      }
    }
  }

  /** Every block with a quorum is finalized: the state after the sweep over
      all stored blocks. */
  ghost function AllFinalized(chain: Chain, q: int): Chain
  {
    map id | id in chain :: chain[id].(finalized := chain[id].finalized || |chain[id].votesReceived| >= q)
  }

  /** The per-slot lists in slot order up to `s` (exclusive), joined:
      what `for slot, bids in blocks_in_slot.items()` visits, the slots
      having been entered in ascending order. */
  function SlotsUpTo(bis: map<nat, seq<BlockId>>, s: nat): seq<BlockId>
  {
    if s == 0 then [] else SlotsUpTo(bis, s - 1) + BlocksAt(bis, s - 1)
  }

  /** Every listed id of a slot below `s` is visited. */
  lemma {:induction false} SlotsUpToMembers(bis: map<nat, seq<BlockId>>, s: nat, id: BlockId)
    ensures id in SlotsUpTo(bis, s) <==> exists t :: 0 <= t < s && id in BlocksAt(bis, t)
  {
    if s > 0 {
      SlotsUpToMembers(bis, s - 1, id);
      if id in BlocksAt(bis, s - 1) {
        assert id in SlotsUpTo(bis, s);
      }
    }
  }

  /** `c'` keeps the tree of `c`: the same ids, and every block the same id,
      slot, parent and proposer; only votes and finalized flags may differ. */
  ghost predicate SameTree(c: Chain, c': Chain) {
    && c.Keys == c'.Keys
    && forall id :: id in c ==>
         c'[id].id == c[id].id && c'[id].slot == c[id].slot && c'[id].parent == c[id].parent
         && c'[id].proposer == c[id].proposer
  }

  /** A clock that moves forward keeps the tree invariant. */
  lemma TreeValidLater(c: Chain, o: seq<BlockId>, bis: map<nat, seq<BlockId>>, cur: nat, cur': nat)
    requires TreeValid(c, o, bis, cur) && cur <= cur'
    ensures TreeValid(c, o, bis, cur')
  {
  }

  /** The tree invariant depends only on the tree. */
  lemma SameTreeValid(c: Chain, c': Chain, order: seq<BlockId>, bis: map<nat, seq<BlockId>>, cur: nat)
    requires SameTree(c, c') && TreeValid(c, order, bis, cur)
    ensures TreeValid(c', order, bis, cur)
  {
    forall id | id in c' ensures ParentOlder(c', id) {
      assert ParentOlder(c, id);
    }
    forall id | id in c' && id != Genesis ensures HasOlderParent(c', id) {
      assert HasOlderParent(c, id);
    }
    forall id ensures Listed(c', bis, id) {
      assert Listed(c, bis, id);
    }
  }

  /** Children lists depend only on the tree. */
  lemma {:induction false} SameTreeChildren(c: Chain, c': Chain, os: seq<BlockId>, x: BlockId)
    requires SameTree(c, c')
    ensures ChildrenIn(c', os, x) == ChildrenIn(c, os, x)
  {
    if os != [] {
      SameTreeChildren(c, c', os[..|os| - 1], x);
    }
  }

  /** Applying votes keeps the tree, the finalized blocks and the roster. */
  lemma ApplyVotesKeeps(chain: Chain, vs: seq<Validator>, es: seq<VoteEvent>, cur: nat, latest: BlockId)
    requires latest in chain && forall k :: 0 <= k < |es| ==> es[k].validator < |vs|
    ensures var r := ApplyVotes(chain, vs, es, cur, latest);
      && SameTree(chain, r.chain)
      && FinalizedIds(r.chain) == FinalizedIds(chain)
      && (RosterValid(vs) ==> RosterValid(r.validators))
  {
    var r := ApplyVotes(chain, vs, es, cur, latest);
    ApplyVotesShape(chain, vs, es, cur, latest);
  }

  /** Trying to finalize keeps the tree. */
  lemma FinalizeSeqKeeps(chain: Chain, ids: seq<BlockId>, q: int)
    ensures SameTree(chain, FinalizeSeq(chain, ids, q))
  {
    FinalizeSeqEffect(chain, ids, q);
  }

  /** Pending votes keep naming roster validators. */
  lemma PendingValid(es: seq<VoteEvent>, cur: int)
    requires EventsValid(es)
    ensures EventsValid(Pending(es, cur)) && EventsValid(Due(es, cur))
  {
  }

  /** Every id the sweep visits is stored. */
  lemma {:induction false} SlotsUpToIn(chain: Chain, bis: map<nat, seq<BlockId>>, s: nat)
    requires BlocksIndexed(chain, bis)
    ensures forall k :: 0 <= k < |SlotsUpTo(bis, s)| ==> SlotsUpTo(bis, s)[k] in chain
  {
    if s > 0 {
      SlotsUpToIn(chain, bis, s - 1);
    }
  }

  /** Trying `xs` and then `ys` is trying `xs + ys`. */
  lemma {:induction false} FinalizeSeqAppend(chain: Chain, xs: seq<BlockId>, ys: seq<BlockId>, q: int)
    ensures FinalizeSeq(chain, xs + ys, q) == FinalizeSeq(FinalizeSeq(chain, xs, q), ys, q)
  {
    if ys == [] {
      assert xs + ys == xs;
    } else {
      var n := |ys| - 1;
      assert (xs + ys)[..|xs + ys| - 1] == xs + ys[..n];
      FinalizeSeqAppend(chain, xs, ys[..n], q);
    }
  }

  /** Trying the new blocks and then every listed block of every slot up to
      `cur` finalizes exactly the stored blocks with a quorum. */
  lemma SweepAll(c: Chain, ids: seq<BlockId>, bis: map<nat, seq<BlockId>>, cur: nat, q: int)
    requires BlocksListed(c, bis) && forall id :: id in c ==> c[id].slot <= cur
    ensures FinalizeSeq(FinalizeSeq(c, ids, q), SlotsUpTo(bis, cur + 1), q) == AllFinalized(c, q)
  {
    var c1 := FinalizeSeq(c, ids, q);
    FinalizeSeqEffect(c, ids, q);
    FinalizeSeqEffect(c1, SlotsUpTo(bis, cur + 1), q);
    forall id | id in c ensures id in SlotsUpTo(bis, cur + 1) {
      assert Listed(c, bis, id);
      var t := c[id].slot;
      assert 0 <= t < cur + 1 && id in BlocksAt(bis, t);
      SlotsUpToMembers(bis, cur + 1, id);
    }
  }

  /** The ids `"slot:0"` .. `"slot:(n-1)"`. */
  function NewIds(slot: nat, n: nat): (ids: seq<BlockId>)
    ensures |ids| == n
  {
    if n == 0 then [] else NewIds(slot, n - 1) + [MakeBlockId(slot, n - 1)]
  }

  lemma {:induction false} NewIdsAt(slot: nat, n: nat)
    ensures forall k :: 0 <= k < n ==> NewIds(slot, n)[k] == MakeBlockId(slot, k)
  {
    if n > 0 {
      NewIdsAt(slot, n - 1);
    }
  }

  /** A slot with no listed block keeps the tree valid when it is listed
      as empty. */
  lemma EmptySlotListed(c: Chain, o: seq<BlockId>, bis: map<nat, seq<BlockId>>, cur: nat)
    requires TreeValid(c, o, bis, cur) && BlocksAt(bis, cur) == []
    ensures TreeValid(c, o, bis[cur := []], cur)
  {
    var bis' := bis[cur := []];
    forall id ensures Listed(c, bis', id) {
      assert Listed(c, bis, id);
      if id in c {
        assert id in BlocksAt(bis, c[id].slot);
      }
    }
  }

  /** No stored block has an id of a slot that has no listed block. */
  lemma SlotIdFresh(c: Chain, bis: map<nat, seq<BlockId>>, cur: nat, k: nat)
    requires BlocksIndexed(c, bis) && BlocksListed(c, bis) && BlocksAt(bis, cur) == []
    ensures MakeBlockId(cur, k) !in c
  {
    forall x | x in c ensures x != MakeBlockId(cur, k) {
      assert Listed(c, bis, x);
      var s := c[x].slot;
      var j :| 0 <= j < |bis[s]| && bis[s][j] == x;
    }
  }

  /** The ids proposed in a slot with no listed block are all fresh. */
  lemma NewIdsFresh(c: Chain, bis: map<nat, seq<BlockId>>, cur: nat, n: nat)
    requires BlocksIndexed(c, bis) && BlocksListed(c, bis) && BlocksAt(bis, cur) == []
    ensures forall id :: id in NewIds(cur, n) ==> id !in c
  {
    var ids := NewIds(cur, n);
    forall k | 0 <= k < n ensures ids[k] !in c {
      NewIdsAt(cur, n);
      SlotIdFresh(c, bis, cur, k);
    }
  }

  /** Adding `n` blocks on a stored parent of an earlier slot, in a slot with
      no block yet, keeps the tree valid. */
  lemma {:induction false} ProposedKeepsTree(c: Chain, o: seq<BlockId>, bis: map<nat, seq<BlockId>>, cur: nat,
                                             parent: BlockId, proposer: nat, n: nat)
    requires TreeValid(c, o, bis, cur) && BlocksAt(bis, cur) == []
    requires parent in c && c[parent].slot < cur
    ensures TreeValid(AddAll(c, NewIds(cur, n), cur, parent, proposer), o + NewIds(cur, n), bis[cur := NewIds(cur, n)], cur)
  {
    var ids := NewIds(cur, n);
    if n == 0 {
      assert o + ids == o;
      EmptySlotListed(c, o, bis, cur);
    } else {
      ProposedKeepsTree(c, o, bis, cur, parent, proposer, n - 1);
      ParentKept(c, bis, cur, parent, proposer, n - 1);
      ProposedStep(c, o, bis, cur, parent, proposer, n);
    }
  }

  /** The parent of the proposed blocks stays stored, with its slot. */
  lemma ParentKept(c: Chain, bis: map<nat, seq<BlockId>>, cur: nat, parent: BlockId, proposer: nat, n: nat)
    requires BlocksIndexed(c, bis) && BlocksListed(c, bis) && BlocksAt(bis, cur) == []
    requires parent in c
    ensures var c' := AddAll(c, NewIds(cur, n), cur, parent, proposer);
      parent in c' && c'[parent] == c[parent]
  {
    NewIdsFresh(c, bis, cur, n);
    AddAllEffect(c, NewIds(cur, n), cur, parent, proposer);
  }

  /** One more block on top of the first `n - 1`. */
  lemma ProposedStep(c: Chain, o: seq<BlockId>, bis: map<nat, seq<BlockId>>, cur: nat,
                     parent: BlockId, proposer: nat, n: nat)
    requires n > 0
    requires var c' := AddAll(c, NewIds(cur, n - 1), cur, parent, proposer);
      parent in c' && c'[parent].slot < cur
    requires TreeValid(AddAll(c, NewIds(cur, n - 1), cur, parent, proposer), o + NewIds(cur, n - 1),
                       bis[cur := NewIds(cur, n - 1)], cur)
    ensures TreeValid(AddAll(c, NewIds(cur, n), cur, parent, proposer), o + NewIds(cur, n), bis[cur := NewIds(cur, n)], cur)
  {
    var pre := NewIds(cur, n - 1);
    var c', o', bis' := AddAll(c, pre, cur, parent, proposer), o + pre, bis[cur := pre];
    var b := Block(MakeBlockId(cur, n - 1), cur, Some(parent), {}, false, Some(proposer));
    AddBlockKeepsTree(c', o', bis', cur, b);
    ProposedShape(c, o, bis, cur, parent, proposer, n);
  }

  /** Adding the first `n` ids is adding the first `n - 1` and then the last. */
  lemma ProposedShape(c: Chain, o: seq<BlockId>, bis: map<nat, seq<BlockId>>, cur: nat,
                      parent: BlockId, proposer: nat, n: nat)
    requires n > 0
    ensures var pre, ids := NewIds(cur, n - 1), NewIds(cur, n);
      var b := Block(MakeBlockId(cur, n - 1), cur, Some(parent), {}, false, Some(proposer));
      && AddAll(c, ids, cur, parent, proposer) == AddAll(c, pre, cur, parent, proposer)[b.id := b]
      && o + ids == (o + pre) + [b.id]
      && bis[cur := ids] == bis[cur := pre][cur := BlocksAt(bis[cur := pre], cur) + [b.id]]
  {
    var pre, ids := NewIds(cur, n - 1), NewIds(cur, n);
    var b := Block(MakeBlockId(cur, n - 1), cur, Some(parent), {}, false, Some(proposer));
    assert ids == pre + [b.id];
    assert ids[..|ids| - 1] == pre;
    AppendAssoc(o, pre, [b.id]);
    UpdateTwice(bis, cur, pre, ids);
  }

  lemma UpdateTwice(m: map<nat, seq<BlockId>>, k: nat, x: seq<BlockId>, y: seq<BlockId>)
    ensures m[k := x][k := y] == m[k := y]
  {
  }

  /** The votes every `id` of `ids` gets scheduled, one block after the other. */
  function ScheduledAll(vs: seq<Validator>, ids: seq<BlockId>, origin: int,
                        delay: (BlockId, nat) -> int, coin: (BlockId, nat) -> real, head: BlockId): seq<VoteEvent>
  {
    if ids == [] then []
    else ScheduledAll(vs, ids[..|ids| - 1], origin, delay, coin, head)
         + Scheduled(vs, ids[|ids| - 1], origin, delay, coin, head)
  }

  /** Scheduled votes name roster validators. */
  lemma {:induction false} ScheduledValid(vs: seq<Validator>, blockId: BlockId, origin: int,
                                          delay: (BlockId, nat) -> int, coin: (BlockId, nat) -> real, head: BlockId)
    requires RosterValid(vs)
    ensures EventsValid(Scheduled(vs, blockId, origin, delay, coin, head))
  {
    ScheduledVoters(vs, blockId, origin, delay, coin, head);
    var el := Eligible(vs);
    assert forall k :: 0 <= k < |el| ==> el[k] in vs;
  }

  lemma {:induction false} ScheduledAllValid(vs: seq<Validator>, ids: seq<BlockId>, origin: int,
                                             delay: (BlockId, nat) -> int, coin: (BlockId, nat) -> real, head: BlockId)
    requires RosterValid(vs)
    ensures EventsValid(ScheduledAll(vs, ids, origin, delay, coin, head))
  {
    if ids != [] {
      ScheduledAllValid(vs, ids[..|ids| - 1], origin, delay, coin, head);
      ScheduledValid(vs, ids[|ids| - 1], origin, delay, coin, head);
    }
  }

  /** Every event of `es` is stamped with `origin`, is due within `maxDelay`
      slots of it, and is for one of `ids` or for `head`. */
  predicate ScheduledWithin(es: seq<VoteEvent>, ids: seq<BlockId>, origin: int, head: BlockId, maxDelay: int) {
    forall k :: 0 <= k < |es| ==>
      && es[k].originSlot == origin && origin <= es[k].deliverSlot <= origin + maxDelay
      && (es[k].blockId in ids || es[k].blockId == head)
  }

  /** Every vote scheduled for the blocks `ids` is stamped with `origin`, is
      due within `maxDelay` slots of it when every delay draw is, and is for
      one of `ids` or for `head`. */
  lemma {:induction false} ScheduledAllTargets(vs: seq<Validator>, ids: seq<BlockId>, origin: int,
                                               delay: (BlockId, nat) -> int, coin: (BlockId, nat) -> real,
                                               head: BlockId, maxDelay: int)
    requires forall b, v :: 0 <= delay(b, v) <= maxDelay
    ensures ScheduledWithin(ScheduledAll(vs, ids, origin, delay, coin, head), ids, origin, head, maxDelay)
  {
    if ids != [] {
      var n := |ids| - 1;
      ScheduledAllTargets(vs, ids[..n], origin, delay, coin, head, maxDelay);
      ScheduledTargets(vs, ids[n], origin, delay, coin, head, maxDelay);
      ScheduledVoters(vs, ids[n], origin, delay, coin, head);
      var pre := ScheduledAll(vs, ids[..n], origin, delay, coin, head);
      var last := Scheduled(vs, ids[n], origin, delay, coin, head);
      var es: seq<VoteEvent> := pre + last;
      forall k | 0 <= k < |es|
        ensures && es[k].originSlot == origin && origin <= es[k].deliverSlot <= origin + maxDelay
                && (es[k].blockId in ids || es[k].blockId == head)
      {
        if k < |pre| {
          assert es[k] == pre[k];
          if pre[k].blockId in ids[..n] {
            var j :| 0 <= j < n && ids[..n][j] == pre[k].blockId;
            assert ids[j] == pre[k].blockId;
          }
        } else {
          var j := k - |pre|;
          assert es[k] == last[j];
          assert TargetsWithin(last, ids[n], origin, head, maxDelay);
          assert origin <= last[j].deliverSlot <= origin + maxDelay;
          assert last[j].originSlot == origin;
          assert ids[n] in ids;
        }
      }
    }
  }

  /** `chain` after `add_block(slot, parent, proposer)` has stored a block
      under each id of `ids`, in turn. */
  function AddAll(chain: Chain, ids: seq<BlockId>, slot: nat, parent: BlockId, proposer: nat): Chain
  {
    if ids == [] then chain
    else
      var id := ids[|ids| - 1];
      AddAll(chain, ids[..|ids| - 1], slot, parent, proposer)[id := Block(id, slot, Some(parent), {}, false, Some(proposer))]
  }

  /** The stored ids grow by `ids`; each id of `ids` holds a new block on
      `parent` with no votes, not finalized; every other block is kept. */
  lemma {:induction false} AddAllEffect(chain: Chain, ids: seq<BlockId>, slot: nat, parent: BlockId, proposer: nat)
    ensures var c := AddAll(chain, ids, slot, parent, proposer);
      && (forall id :: id in c <==> id in chain || id in ids)
      && (forall id :: id in ids ==> c[id] == Block(id, slot, Some(parent), {}, false, Some(proposer)))
      && (forall id :: id in chain && id !in ids ==> c[id] == chain[id])
  {
    if ids != [] {
      var n := |ids| - 1;
      AddAllEffect(chain, ids[..n], slot, parent, proposer);
      assert forall id :: id in ids <==> id in ids[..n] || id == ids[n] by {
        assert ids == ids[..n] + [ids[n]];
      }
    }
  }

  /** New blocks are not finalized, so storing fresh ones keeps the
      finalized set. */
  lemma AddAllKeepsFinalized(chain: Chain, ids: seq<BlockId>, slot: nat, parent: BlockId, proposer: nat)
    requires forall id :: id in ids ==> id !in chain
    ensures FinalizedIds(AddAll(chain, ids, slot, parent, proposer)) == FinalizedIds(chain)
  {
    AddAllEffect(chain, ids, slot, parent, proposer);
  }

  /** The simulator's invariant over its state: the roster holds validators
      `0..18` at their own index; the tree is well formed and ordered; the
      per-slot index and the tree agree; no block is in a future slot; queued
      votes name roster validators; and `total_finalizations` counts the
      finalized blocks other than genesis. */
  ghost predicate Inv(vs: seq<Validator>, c: Chain, o: seq<BlockId>, bis: map<nat, seq<BlockId>>, cur: nat,
                      es: seq<VoteEvent>, finalizations: nat)
  {
    && RosterValid(vs)
    && TreeValid(c, o, bis, cur)
    && EventsValid(es)
    && finalizations + 1 == |FinalizedIds(c)|
  }

  /** Applying the votes due at `cur` keeps the invariant and the tree, keeps
      every finalized flag and only adds votes. */
  lemma DeliverKeeps(vs: seq<Validator>, c: Chain, o: seq<BlockId>, bis: map<nat, seq<BlockId>>, cur: nat,
                     es: seq<VoteEvent>, finalizations: nat)
    requires Genesis in c && |vs| == NumValidators && EventsValid(es)
    ensures var r := ApplyVotes(c, vs, Due(es, cur), cur, Latest(c));
      && (Inv(vs, c, o, bis, cur, es, finalizations) ==> Inv(r.validators, r.chain, o, bis, cur, Pending(es, cur), finalizations))
      && SameTree(c, r.chain)
      && (forall id :: id in c ==>
            r.chain[id].finalized == c[id].finalized && c[id].votesReceived <= r.chain[id].votesReceived)
  {
    var r := ApplyVotes(c, vs, Due(es, cur), cur, Latest(c));
    ApplyVotesKeeps(c, vs, Due(es, cur), cur, Latest(c));
    if Inv(vs, c, o, bis, cur, es, finalizations) {
      SameTreeValid(c, r.chain, o, bis, cur);
    }
    PendingValid(es, cur);
    ApplyVotesShape(c, vs, Due(es, cur), cur, Latest(c));
  }


  /** Moving the clock on by one slot keeps the invariant and leaves the new
      slot without blocks. */
  lemma InvLater(vs: seq<Validator>, c: Chain, o: seq<BlockId>, bis: map<nat, seq<BlockId>>, cur: nat,
                 es: seq<VoteEvent>, finalizations: nat)
    requires Inv(vs, c, o, bis, cur, es, finalizations)
    ensures Inv(vs, c, o, bis, cur + 1, es, finalizations)
    ensures BlocksAt(bis, cur + 1) == [] && forall id :: id in c ==> c[id].slot < cur + 1
  {
    TreeValidLater(c, o, bis, cur, cur + 1);
    ListedSlotsBounded(c, bis, cur);
  }

  /** A slot with a listed block is not after `cur` when no stored block is. */
  lemma ListedSlotsBounded(c: Chain, bis: map<nat, seq<BlockId>>, cur: nat)
    requires BlocksIndexed(c, bis) && forall id :: id in c ==> c[id].slot <= cur
    ensures forall s :: s in bis && bis[s] != [] ==> s <= cur
  {
    forall s | s in bis && bis[s] != [] ensures s <= cur {
      assert bis[s][0] in c;
    }
  }

  /** The module globals of `server2.py` as one value: what each helper reads
      and what it hands back in place of updating them. */
  datatype World = World(currentSlot: nat, currentEpoch: nat, validators: seq<Validator>, chain: Chain,
                         order: seq<BlockId>, blocksInSlot: map<nat, seq<BlockId>>,
                         voteEvents: seq<VoteEvent>, metrics: Metrics,
                         maxDelaySlots: int, forkAttackProb: real, quorumRatio: real)

  ghost predicate WorldValid(w: World) {
    Inv(w.validators, w.chain, w.order, w.blocksInSlot, w.currentSlot, w.voteEvents, w.metrics.totalFinalizations)
  }

  /** The globals right after start-up or `api_reset`, under the given
      settings: slot and epoch 0, a fresh roster, `init_genesis`'s tree, no
      queued vote and zero metrics. */
  function InitialWorld(maxDelay: int, forkProb: real, ratio: real): World {
    World(0, 0, FreshValidators(NumValidators), map[Genesis := GenesisBlock], [Genesis], map[0 := [Genesis]],
          [], Metrics(0, 0, 0), maxDelay, forkProb, ratio)
  }

  /** The start-up state satisfies the invariant, and genesis is its only,
      finalized, block. */
  lemma InitialWorldValid(maxDelay: int, forkProb: real, ratio: real)
    ensures var w := InitialWorld(maxDelay, forkProb, ratio);
      && WorldValid(w)
      && w.chain.Keys == {Genesis} && w.chain[Genesis].finalized
      && GhostHead(w.chain, w.order, w.validators, Genesis) == Genesis
  {
    GenesisTreeValid();
    assert RosterValid(FreshValidators(NumValidators));
  }

  /** `init_genesis`'s tree is valid, its one block is finalized and has no child. */
  lemma GenesisTreeValid()
    ensures var c := map[Genesis := GenesisBlock];
      && TreeValid(c, [Genesis], map[0 := [Genesis]], 0)
      && FinalizedIds(c) == {Genesis}
      && ChildrenIn(c, [Genesis], Genesis) == []
  {
    var c := map[Genesis := GenesisBlock];
    assert FinalizedIds(c) == {Genesis};
    assert ChildrenIn(c, [Genesis], Genesis) == [] by {
      assert [Genesis] == [] + [Genesis];
    }
  }

  /** `api_reset`: the globals start over; the three settings are kept. */
  function Reset(w: World): World {
    InitialWorld(w.maxDelaySlots, w.forkAttackProb, w.quorumRatio)
  }

  /** A reset state satisfies the invariant and keeps the settings; resetting
      twice is resetting once. */
  lemma ResetEffect(w: World)
    ensures WorldValid(Reset(w))
    ensures Reset(w).maxDelaySlots == w.maxDelaySlots && Reset(w).forkAttackProb == w.forkAttackProb
    ensures Reset(w).quorumRatio == w.quorumRatio
    ensures Reset(w).currentSlot == 0 && Reset(w).voteEvents == [] && Reset(Reset(w)) == Reset(w)
  {
    InitialWorldValid(w.maxDelaySlots, w.forkAttackProb, w.quorumRatio);
  }

  /** What `api_toggle_fault` answers. */
  datatype ToggleReply = InvalidValidatorId | Toggled(validator: Validator)

  /** `api_toggle_fault`: a missing id, or one outside `0..18`, is refused;
      otherwise that validator's faulty flag flips. */
  function ToggleFault(w: World, vid: Option<int>): (World, ToggleReply)
    requires RosterValid(w.validators)
  {
    if vid.None? || !(0 <= vid.value < NumValidators) then (w, InvalidValidatorId)
    else
      var v := w.validators[vid.value].(faulty := !w.validators[vid.value].faulty);
      (w.(validators := w.validators[vid.value := v]), Toggled(v))
  }

  /** The id is refused exactly when it is missing or out of range, and then
      nothing changes; otherwise only that validator's faulty flag flips, the
      reply shows it, the invariant is kept, and a second toggle undoes the
      first. */
  lemma ToggleFaultEffect(w: World, vid: Option<int>)
    requires RosterValid(w.validators)
    ensures var (w', reply) := ToggleFault(w, vid);
      && (reply == InvalidValidatorId <==> vid.None? || !(0 <= vid.value < NumValidators))
      && (reply == InvalidValidatorId ==> w' == w)
      && (reply != InvalidValidatorId ==>
            && |w'.validators| == |w.validators|
            && w'.validators[vid.value] == reply.validator
            && reply.validator == w.validators[vid.value].(faulty := !w.validators[vid.value].faulty)
            && (forall i :: 0 <= i < |w.validators| && i != vid.value ==> w'.validators[i] == w.validators[i])
            && w' == w.(validators := w'.validators))
      && (WorldValid(w) ==> WorldValid(w'))
      && ToggleFault(w', vid).0 == w
  {
    var (w', reply) := ToggleFault(w, vid);
    if reply != InvalidValidatorId {
      var i := vid.value;
      assert w'.validators[i := w'.validators[i].(faulty := !w'.validators[i].faulty)] == w.validators;
    }
  }

  /** `api_config` (POST): each setting present in the request replaces the
      current one; an absent one is kept. */
  function Configure(w: World, maxDelay: Option<int>, forkProb: Option<real>, ratio: Option<real>): World {
    w.(maxDelaySlots := if maxDelay.Some? then maxDelay.value else w.maxDelaySlots,
       forkAttackProb := if forkProb.Some? then forkProb.value else w.forkAttackProb,
       quorumRatio := if ratio.Some? then ratio.value else w.quorumRatio)
  }

  /** Configuring changes only the three settings, each to the given value
      when there is one; the invariant is kept; sending the same request twice
      is sending it once. */
  lemma ConfigureEffect(w: World, maxDelay: Option<int>, forkProb: Option<real>, ratio: Option<real>)
    ensures var w' := Configure(w, maxDelay, forkProb, ratio);
      && (maxDelay.Some? ==> w'.maxDelaySlots == maxDelay.value)
      && (maxDelay.None? ==> w'.maxDelaySlots == w.maxDelaySlots)
      && (forkProb.Some? ==> w'.forkAttackProb == forkProb.value)
      && (forkProb.None? ==> w'.forkAttackProb == w.forkAttackProb)
      && (ratio.Some? ==> w'.quorumRatio == ratio.value)
      && (ratio.None? ==> w'.quorumRatio == w.quorumRatio)
      && w' == w.(maxDelaySlots := w'.maxDelaySlots, forkAttackProb := w'.forkAttackProb, quorumRatio := w'.quorumRatio)
      && (WorldValid(w) ==> WorldValid(w'))
      && Configure(w', maxDelay, forkProb, ratio) == w'
  {
  }

  /** `add_block(slot, parent_id, proposer)`: the new block gets id
      `"slot:idx"` with `idx` the number of blocks already in the slot, no
      votes, not finalized; it is stored and appended to the slot's list, and
      nothing else changes. The tree stays valid, and the id is fresh, when
      the parent is a stored block of an earlier slot and the slot is not in
      the future (`AddBlockKeepsTree`). */
  method AddBlock(w: World, slot: nat, parentId: Option<BlockId>, proposer: Option<nat>) returns (w': World, b: Block)
    ensures b == Block(MakeBlockId(slot, |BlocksAt(w.blocksInSlot, slot)|), slot, parentId, {}, false, proposer)
    ensures w' == w.(chain := w.chain[b.id := b], order := w.order + [b.id],
                     blocksInSlot := w.blocksInSlot[slot := BlocksAt(w.blocksInSlot, slot) + [b.id]])
  {
    var idx := |BlocksAt(w.blocksInSlot, slot)|;
    var bid := MakeBlockId(slot, idx);
    b := Block(bid, slot, parentId, {}, false, proposer);
    w' := w.(chain := w.chain[bid := b], order := w.order + [bid],
             blocksInSlot := w.blocksInSlot[slot := BlocksAt(w.blocksInSlot, slot) + [bid]]);
  }

  /** `ancestry(block_id)` over the stored blocks `chain`. */
  method Ancestry(chain: Chain, blockId: BlockId) returns (res: seq<BlockId>)
    requires ParentsOlder(chain)
    ensures res == AncestryOf(chain, Some(blockId))
  {
    res := [];
    var cur := Some(blockId);
    while Truthy(cur)
      invariant res + AncestryOf(chain, cur) == AncestryOf(chain, Some(blockId))
      decreases if cur.Some? && cur.value in chain then chain[cur.value].slot + 1 else 0
    {
      if cur.value !in chain {
        break;
      }
      assert ParentOlder(chain, cur.value);
      res := res + [cur.value];
      cur := chain[cur.value].parent;
    }
  }

  /** `subtree_members(root_id)`: a depth-first walk with an explicit stack;
      the `x in out` test is what makes it stop. `order` is the key order
      of `chain`. */
  method SubtreeMembers(chain: Chain, order: seq<BlockId>, root: BlockId) returns (out: set<BlockId>)
    requires ParentsOlder(chain)
    requires forall id :: id in chain ==> chain[id].id == id && id in order
    requires forall id :: id in order ==> id in chain
    ensures out == Subtree(chain, root)
  {
    ghost var all := Subtree(chain, root);
    out := {};
    var stack := [root];
    while stack != []
      invariant DfsInv(chain, root, out, stack)
      decreases |all - out|, |stack|
    {
      var x := stack[|stack| - 1];
      ghost var before := stack;
      stack := stack[..|stack| - 1];
      assert before == stack + [x];
      if x in out {
        DfsSkip(chain, root, out, stack, x);
        continue;
      }
      var cs := Children(chain, order, x);
      DfsPush(chain, order, root, out, stack, x);
      assert all - out == (all - (out + {x})) + {x};
      out := out + {x};
      stack := stack + cs;
    }
    DfsDone(chain, root, out);
  }

  /** The ids of the children of `x`, in key order: the list comprehension of
      `lmd_ghost_head` and the inner loop of `subtree_members`. */
  method Children(chain: Chain, order: seq<BlockId>, x: BlockId) returns (cs: seq<BlockId>)
    requires forall id :: id in order ==> id in chain
    ensures cs == ChildrenIn(chain, order, x)
  {
    cs := [];
    var j := 0;
    while j < |order|
      invariant 0 <= j <= |order|
      invariant cs == ChildrenIn(chain, order[..j], x)
    {
      assert order[..j + 1][..j] == order[..j];
      var id := order[j];
      if chain[id].parent == Some(x) {
        cs := cs + [chain[id].id];
      }
      j := j + 1;
    }
    assert order[..j] == order;
  }

  /** The inner count of `lmd_ghost_head`: how many validators' latest
      messages point into `s`. */
  method CountWeight(validators: seq<Validator>, s: set<BlockId>) returns (w: nat)
    ensures w == Weight(validators, s)
  {
    w := 0;
    var i := 0;
    while i < |validators|
      invariant 0 <= i <= |validators|
      invariant w == Weight(validators[..i], s)
    {
      assert validators[..i + 1][..i] == validators[..i];
      var msg := validators[i].latestMessage;
      if msg.Some? && msg.value.blockId in s {
        w := w + 1;
      }
      i := i + 1;
    }
    assert validators[..i] == validators;
  }

  /** `max([chain[x]["slot"] for x in s])` on a non-empty set of stored ids. */
  method MaxSlotIn(chain: Chain, s: set<BlockId>) returns (m: int)
    requires s != {} && forall x :: x in s ==> x in chain
    ensures m == MaxSlotOf(chain, s)
  {
    var rest := s;
    assert (forall z :: z !in rest) ==> rest == {};
    var x :| x in rest;
    m := chain[x].slot;
    rest := rest - {x};
    while rest != {}
      invariant rest <= s
      invariant m in SlotsIn(chain, s)
      invariant forall y :: y in s && y !in rest ==> chain[y].slot <= m
      decreases |rest|
    {
      assert (forall z :: z !in rest) ==> rest == {};
      var y :| y in rest;
      if chain[y].slot > m {
        m := chain[y].slot;
      }
      rest := rest - {y};
    }
    ghost var top := MaxSlotOf(chain, s);
    ghost var w :| w in s && w in chain && chain[w].slot as int == top;
    assert top <= m;
  }

  /** The inner loop of `lmd_ghost_head` over the children `cs` of one
      block: keep the first child, and let a later child replace the kept
      one when its subtree weighs more, or weighs the same and reaches a
      strictly later slot. */
  method BestChild(chain: Chain, order: seq<BlockId>, validators: seq<Validator>, cs: seq<BlockId>)
    returns (best: BlockId)
    requires ParentsOlder(chain)
    requires forall id :: id in chain ==> chain[id].id == id && id in order
    requires forall id :: id in order ==> id in chain
    requires cs != [] && forall i :: 0 <= i < |cs| ==> cs[i] in chain
    ensures best == BestOf(chain, validators, cs)
  {
    var bestChild: Option<BlockId> := None;
    var bestWeight: int := -1;
    var i := 0;
    while i < |cs|
      invariant 0 <= i <= |cs|
      invariant i == 0 ==> bestChild == None && bestWeight == -1
      invariant i > 0 ==> bestChild == Some(BestOf(chain, validators, cs[..i]))
                          && bestWeight == SubtreeWeight(chain, validators, bestChild.value)
    {
      var child := cs[i];
      assert cs[..i + 1][..i] == cs[..i];
      var subtree := SubtreeMembers(chain, order, child);
      var weight := CountWeight(validators, subtree);
      if weight > bestWeight {
        bestWeight := weight;
        bestChild := Some(child);
      } else if weight == bestWeight && bestChild.Some? {
        assert child in subtree;
        var maxSlotCurr := MaxSlotIn(chain, subtree);
        var bestSubtree := SubtreeMembers(chain, order, bestChild.value);
        assert bestChild.value in bestSubtree;
        var maxSlotBest := MaxSlotIn(chain, bestSubtree);
        if maxSlotCurr > maxSlotBest {
          bestChild := Some(child);
        }
      }
      i := i + 1;
    }
    assert cs[..i] == cs;
    best := bestChild.value;
  }

  /** `lmd_ghost_head`: from genesis, descend into the best child until a
      block without children is reached. */
  method LmdGhostHead(chain: Chain, order: seq<BlockId>, validators: seq<Validator>) returns (head: BlockId)
    requires WellFormed(chain)
    requires forall id :: id in chain ==> id in order
    requires forall id :: id in order ==> id in chain
    ensures head == GhostHead(chain, order, validators, Genesis)
  {
    var cs := Children(chain, order, Genesis);
    if cs == [] {
      return Genesis;
    }
    var cur := Genesis;
    while true
      invariant cur in chain
      invariant GhostHead(chain, order, validators, cur) == GhostHead(chain, order, validators, Genesis)
      decreases |Later(chain, chain[cur].slot)|
    {
      cs := Children(chain, order, cur);
      if cs == [] {
        return cur;
      }
      GhostStep(chain, order, validators, cur);
      cur := BestChild(chain, order, validators, cs);
    }
  }

  /** `apply_due_votes`: the due events leave the queue, the pending ones
      stay in their order, and the due ones are applied one by one; nothing
      but the queue, the roster and the blocks' votes changes. */
  method ApplyDueVotes(w: World) returns (w': World, applied: seq<(nat, BlockId)>)
    requires Genesis in w.chain && forall id :: id in w.chain <==> id in w.order
    requires |w.validators| == NumValidators && EventsValid(w.voteEvents)
    ensures var t := ApplyVotes(w.chain, w.validators, Due(w.voteEvents, w.currentSlot), w.currentSlot, Latest(w.chain));
      && w' == w.(voteEvents := Pending(w.voteEvents, w.currentSlot), chain := t.chain, validators := t.validators)
      && applied == t.applied
  {
    var toApply := Due(w.voteEvents, w.currentSlot);
    var latest := LatestKey(w.chain, w.order);
    LatestIsLatest(w.chain);
    LatestUnique(w.chain, latest, Latest(w.chain));
    var t := ApplyEvents(w.chain, w.validators, toApply, w.currentSlot, latest);
    w' := w.(voteEvents := Pending(w.voteEvents, w.currentSlot), chain := t.chain, validators := t.validators);
    applied := t.applied;
  }

  /** `schedule_votes_for_block(block_id, origin_slot)`: one event per
      eligible validator, appended in roster order; a delayed vote that does
      not go to the new block goes to `head`, the head of the tree, which is
      the same wherever it is computed during scheduling. */
  method ScheduleVotesForBlock(w: World, blockId: BlockId, origin: nat,
                               delay: (BlockId, nat) -> int, coin: (BlockId, nat) -> real, head: BlockId)
    returns (w': World)
    ensures w' == w.(voteEvents := w.voteEvents + Scheduled(w.validators, blockId, origin, delay, coin, head))
  {
    var events := w.voteEvents;
    var i := 0;
    while i < |w.validators|
      invariant 0 <= i <= |w.validators|
      invariant events == w.voteEvents + Scheduled(w.validators[..i], blockId, origin, delay, coin, head)
    {
      assert w.validators[..i + 1][..i] == w.validators[..i];
      var v := w.validators[i];
      if !(v.faulty || v.slashed) {
        var d := delay(blockId, v.id);
        var target;
        if d == 0 {
          target := blockId;
        } else if coin(blockId, v.id) < 0.5 {
          target := blockId;
        } else {
          target := head;
        }
        events := events + [VoteEvent(origin + d, v.id, target, origin)];
      }
      i := i + 1;
    }
    assert w.validators[..i] == w.validators;
    w' := w.(voteEvents := events);
  }

  /** Step 3 of `simulate_one_slot`: schedule votes for each new block. */
  method ScheduleAll(w: World, ids: seq<BlockId>, origin: nat,
                     delay: (BlockId, nat) -> int, coin: (BlockId, nat) -> real, head: BlockId)
    returns (w': World)
    ensures w' == w.(voteEvents := w.voteEvents + ScheduledAll(w.validators, ids, origin, delay, coin, head))
  {
    w' := w;
    var j := 0;
    while j < |ids|
      invariant 0 <= j <= |ids|
      invariant w' == w.(voteEvents := w'.voteEvents)
      invariant w'.voteEvents == w.voteEvents + ScheduledAll(w.validators, ids[..j], origin, delay, coin, head)
    {
      assert ids[..j + 1][..j] == ids[..j];
      AppendAssoc(w.voteEvents, ScheduledAll(w.validators, ids[..j], origin, delay, coin, head),
                  Scheduled(w.validators, ids[j], origin, delay, coin, head));
      w' := ScheduleVotesForBlock(w', ids[j], origin, delay, coin, head);
      j := j + 1;
    }
    assert ids[..j] == ids;
  }

  /** `try_finalize_block`: true exactly when the block was not finalized and
      holds a quorum of votes; then it becomes finalized and one more
      finalization is counted. */
  method TryFinalizeBlock(w: World, bid: BlockId) returns (w': World, fired: bool)
    requires bid in w.chain
    ensures fired <==> !w.chain[bid].finalized && |w.chain[bid].votesReceived| >= QuorumNeeded(w.quorumRatio)
    ensures w' == w.(chain := Finalize(w.chain, bid, QuorumNeeded(w.quorumRatio)),
                     metrics := w.metrics.(totalFinalizations := w.metrics.totalFinalizations + if fired then 1 else 0))
  {
    var b := w.chain[bid];
    if b.finalized {
      return w, false;
    }
    var votes := |b.votesReceived|;
    var quorumNeeded := Ceil(NumValidators as real * w.quorumRatio);
    if votes >= quorumNeeded {
      w' := w.(chain := w.chain[bid := b.(finalized := true)],
               metrics := w.metrics.(totalFinalizations := w.metrics.totalFinalizations + 1));
      return w', true;
    }
    return w, false;
  }

  /** Tries each id of `ids` in turn: step 5 of `simulate_one_slot` over the
      new blocks, and the inner loop of step 6 over one slot's list. The
      count of finalizations grows by the number of blocks that flipped. */
  method FinalizeEach(w: World, ids: seq<BlockId>) returns (w': World)
    requires forall k :: 0 <= k < |ids| ==> ids[k] in w.chain
    ensures w'.chain == FinalizeSeq(w.chain, ids, QuorumNeeded(w.quorumRatio))
    ensures w' == w.(chain := w'.chain, metrics := w'.metrics)
    ensures w'.metrics.totalSlotsSimulated == w.metrics.totalSlotsSimulated
    ensures w'.metrics.totalForks == w.metrics.totalForks
    ensures w'.metrics.totalFinalizations + |FinalizedIds(w.chain)| == w.metrics.totalFinalizations + |FinalizedIds(w'.chain)|
  {
    var q := QuorumNeeded(w.quorumRatio);
    w' := w;
    var j := 0;
    while j < |ids|
      invariant 0 <= j <= |ids|
      invariant w'.chain == FinalizeSeq(w.chain, ids[..j], q)
      invariant w' == w.(chain := w'.chain, metrics := w'.metrics)
      invariant w'.metrics.totalSlotsSimulated == w.metrics.totalSlotsSimulated
      invariant w'.metrics.totalForks == w.metrics.totalForks
      invariant w'.metrics.totalFinalizations + |FinalizedIds(w.chain)| == w.metrics.totalFinalizations + |FinalizedIds(w'.chain)|
    {
      assert ids[..j + 1][..j] == ids[..j];
      FinalizeCount(w'.chain, ids[j], q);
      var fired;
      w', fired := TryFinalizeBlock(w', ids[j]);
      j := j + 1;
    }
    assert ids[..j] == ids;
  }

  /** Step 6 of `simulate_one_slot`: every listed block of every slot, slot
      by slot, is tried once more. */
  method FinalizeSweep(w: World) returns (w': World)
    requires BlocksIndexed(w.chain, w.blocksInSlot)
    ensures w'.chain == FinalizeSeq(w.chain, SlotsUpTo(w.blocksInSlot, w.currentSlot + 1), QuorumNeeded(w.quorumRatio))
    ensures w' == w.(chain := w'.chain, metrics := w'.metrics)
    ensures w'.metrics.totalSlotsSimulated == w.metrics.totalSlotsSimulated
    ensures w'.metrics.totalForks == w.metrics.totalForks
    ensures w'.metrics.totalFinalizations + |FinalizedIds(w.chain)| == w.metrics.totalFinalizations + |FinalizedIds(w'.chain)|
  {
    var q := QuorumNeeded(w.quorumRatio);
    w' := w;
    var s := 0;
    while s <= w.currentSlot
      invariant 0 <= s <= w.currentSlot + 1
      invariant w'.chain == FinalizeSeq(w.chain, SlotsUpTo(w.blocksInSlot, s), q)
      invariant w' == w.(chain := w'.chain, metrics := w'.metrics)
      invariant w'.metrics.totalSlotsSimulated == w.metrics.totalSlotsSimulated
      invariant w'.metrics.totalForks == w.metrics.totalForks
      invariant w'.metrics.totalFinalizations + |FinalizedIds(w.chain)| == w.metrics.totalFinalizations + |FinalizedIds(w'.chain)|
    {
      var bids := BlocksAt(w.blocksInSlot, s);
      assert SlotsUpTo(w.blocksInSlot, s + 1) == SlotsUpTo(w.blocksInSlot, s) + bids;
      FinalizeSeqAppend(w.chain, SlotsUpTo(w.blocksInSlot, s), bids, q);
      w' := FinalizeEach(w', bids);
      s := s + 1;
    }
  }

  /** The block-creating part of step 2 of `simulate_one_slot`: `n` calls of
      `add_block(current_slot, parent, proposer)` in a slot that has no block
      yet, which store the blocks `"slot:0"`, `"slot:1"`, ... and list them
      under the slot in creation order (`ProposedKeepsTree` shows the ids are
      fresh and the tree stays valid). */
  method ProposeBlocks(w: World, parent: BlockId, proposer: nat, n: nat) returns (w': World, ids: seq<BlockId>)
    requires BlocksAt(w.blocksInSlot, w.currentSlot) == [] && n >= 1
    ensures ids == NewIds(w.currentSlot, n)
    ensures w' == w.(chain := AddAll(w.chain, ids, w.currentSlot, parent, proposer), order := w.order + ids,
                     blocksInSlot := w.blocksInSlot[w.currentSlot := ids])
  {
    var cur := w.currentSlot;
    w' := w;
    ids := [];
    var i := 0;
    while i < n
      invariant 0 <= i <= n && ids == NewIds(cur, i)
      invariant w' == w.(chain := AddAll(w.chain, ids, cur, parent, proposer), order := w.order + ids,
                         blocksInSlot := if i == 0 then w.blocksInSlot else w.blocksInSlot[cur := ids])
    {
      assert BlocksAt(w'.blocksInSlot, cur) == ids;
      var b;
      w', b := AddBlock(w', cur, Some(parent), Some(proposer));
      assert AddAll(w.chain, ids + [b.id], cur, parent, proposer) == AddAll(w.chain, ids, cur, parent, proposer)[b.id := b] by {
        assert (ids + [b.id])[..i] == ids;
      }
      AppendAssoc(w.order, ids, [b.id]);
      UpdateTwice(w.blocksInSlot, cur, ids, ids + [b.id]);
      ids := ids + [b.id];
      i := i + 1;
    }
  }

  // ---------------------------------------------------------------------
  // The phases of `simulate_one_slot` as functions of the globals
  // ---------------------------------------------------------------------

  /** Step 0: the clock moves on one slot, and one epoch every
      `SLOTS_PER_EPOCH` slots; one more slot is counted. */
  function Ticked(w: World): World {
    var s := w.currentSlot + 1;
    w.(currentSlot := s, currentEpoch := w.currentEpoch + (if s % SlotsPerEpoch == 0 then 1 else 0),
       metrics := w.metrics.(totalSlotsSimulated := w.metrics.totalSlotsSimulated + 1))
  }

  /** The clock and the settings of `b` are those of `a`. */
  predicate SameClock(a: World, b: World) {
    && b.currentSlot == a.currentSlot && b.currentEpoch == a.currentEpoch
    && b.metrics.totalSlotsSimulated == a.metrics.totalSlotsSimulated
    && b.maxDelaySlots == a.maxDelaySlots && b.forkAttackProb == a.forkAttackProb
    && b.quorumRatio == a.quorumRatio
  }

  /** What `apply_due_votes` leaves in the globals, and the pairs it returns;
      it touches neither the clock, the settings nor the metrics. */
  ghost function Delivered(w: World): (r: (World, seq<(nat, BlockId)>))
    requires Genesis in w.chain && |w.validators| == NumValidators && EventsValid(w.voteEvents)
    ensures SameClock(w, r.0) && r.0.metrics == w.metrics
  {
    var t := ApplyVotes(w.chain, w.validators, Due(w.voteEvents, w.currentSlot), w.currentSlot, Latest(w.chain));
    (w.(voteEvents := Pending(w.voteEvents, w.currentSlot), chain := t.chain, validators := t.validators), t.applied)
  }

  /** How many blocks step 2 proposes: `numForks` when attacking and the
      fork coin falls below the fork probability, else one. */
  function ForkCount(w: World, attack: bool, draws: SlotDraws): nat {
    if attack && draws.forkCoin < w.forkAttackProb then draws.numForks else 1
  }

  /** Valid globals whose current slot has no block yet. */
  ghost predicate ReadyToPropose(w: World) {
    && WorldValid(w) && BlocksAt(w.blocksInSlot, w.currentSlot) == []
    && forall id :: id in w.chain ==> w.chain[id].slot < w.currentSlot
  }

  /** Steps 2 and 3: `ForkCount` blocks are stored on the head of the tree
      and listed under the current slot, and each new block's votes are
      queued; a delayed vote that does not go to its block goes to the head
      of the tree that holds the new blocks. */
  ghost function Proposed(w: World, attack: bool, draws: SlotDraws): (r: World)
    requires ReadyToPropose(w) && 1 <= draws.numForks
    ensures SameClock(w, r)
  {
    var n := ForkCount(w, attack, draws);
    var ids := NewIds(w.currentSlot, n);
    var parent := GhostHead(w.chain, w.order, w.validators, Genesis);
    var c := AddAll(w.chain, ids, w.currentSlot, parent, draws.proposer);
    var o := w.order + ids;
    ProposedKeepsTree(w.chain, w.order, w.blocksInSlot, w.currentSlot, parent, draws.proposer, n);
    w.(chain := c, order := o, blocksInSlot := w.blocksInSlot[w.currentSlot := ids],
       metrics := w.metrics.(totalForks := w.metrics.totalForks + n - 1),
       voteEvents := w.voteEvents + ScheduledAll(w.validators, ids, w.currentSlot, draws.delay, draws.voteCoin,
                                                 GhostHead(c, o, w.validators, Genesis)))
  }

  /** Steps 5 and 6: every block holding a quorum ends finalized, and each
      block that became finalized is counted once. */
  ghost function Finalized(w: World): (r: World)
    ensures SameClock(w, r) && r.metrics.totalForks == w.metrics.totalForks
  {
    var c := AllFinalized(w.chain, QuorumNeeded(w.quorumRatio));
    w.(chain := c, metrics := w.metrics.(totalFinalizations := w.metrics.totalFinalizations
                                                             + |FinalizedIds(c) - FinalizedIds(w.chain)|))
  }

  /** One call of `simulate_one_slot(attack)` with the draws `draws`: the
      globals afterwards and the reply. The votes are applied twice, before
      the proposal and after the scheduling. */
  ghost function SlotStep(w: World, attack: bool, draws: SlotDraws): (World, SlotOutcome)
    requires WorldValid(w) && 1 <= draws.numForks
  {
    var b := Delivered(Ticked(w));
    BegunReady(w);
    var w2 := Proposed(b.0, attack, draws);
    ProposedValid(b.0, attack, draws);
    var d := Delivered(w2);
    (Finalized(d.0), SlotOutcome(w2.currentSlot, NewIds(w2.currentSlot, ForkCount(w, attack, draws)), b.1 + d.1))
  }

  /** After the clock moves on and the due votes are applied, the globals
      are valid and the new slot has no block yet. */
  lemma BegunReady(w: World)
    requires WorldValid(w)
    ensures ReadyToPropose(Delivered(Ticked(w)).0)
  {
    InvLater(w.validators, w.chain, w.order, w.blocksInSlot, w.currentSlot, w.voteEvents, w.metrics.totalFinalizations);
    var w0 := Ticked(w);
    DeliverKeeps(w0.validators, w0.chain, w0.order, w0.blocksInSlot, w0.currentSlot, w0.voteEvents,
                 w0.metrics.totalFinalizations);
  }

  /** Proposing on the head and queueing the new blocks' votes keeps the
      globals valid. */
  lemma ProposedValid(w: World, attack: bool, draws: SlotDraws)
    requires ReadyToPropose(w) && 1 <= draws.numForks
    ensures WorldValid(Proposed(w, attack, draws))
  {
    var n := ForkCount(w, attack, draws);
    var ids := NewIds(w.currentSlot, n);
    var parent := GhostHead(w.chain, w.order, w.validators, Genesis);
    ProposedKeepsTree(w.chain, w.order, w.blocksInSlot, w.currentSlot, parent, draws.proposer, n);
    NewIdsFresh(w.chain, w.blocksInSlot, w.currentSlot, n);
    AddAllKeepsFinalized(w.chain, ids, w.currentSlot, parent, draws.proposer);
    var w' := Proposed(w, attack, draws);
    var head := GhostHead(w'.chain, w'.order, w.validators, Genesis);
    ScheduledAllValid(w.validators, ids, w.currentSlot, draws.delay, draws.voteCoin, head);
    EventsValidAppend(w.voteEvents, ScheduledAll(w.validators, ids, w.currentSlot, draws.delay, draws.voteCoin, head));
  }

  /** Finalizing every block with a quorum keeps the tree and the finalized
      blocks, and adds the newly finalized ones to their number. */
  lemma NewlyFinalized(c: Chain, q: int)
    ensures var c' := AllFinalized(c, q);
      && SameTree(c, c') && FinalizedIds(c) <= FinalizedIds(c')
      && |FinalizedIds(c')| == |FinalizedIds(c)| + |FinalizedIds(c') - FinalizedIds(c)|
  {
    var c' := AllFinalized(c, q);
    var a, b := FinalizedIds(c), FinalizedIds(c');
    assert a <= b;
    assert b == a + (b - a) && a * (b - a) == {};
  }

  /** Applying the due votes and then finalizing keeps the globals valid. */
  lemma SettledValid(w: World)
    requires WorldValid(w)
    ensures WorldValid(Finalized(Delivered(w).0))
  {
    DeliverKeeps(w.validators, w.chain, w.order, w.blocksInSlot, w.currentSlot, w.voteEvents, w.metrics.totalFinalizations);
    var w1 := Delivered(w).0;
    NewlyFinalized(w1.chain, QuorumNeeded(w1.quorumRatio));
    SameTreeValid(w1.chain, Finalized(w1).chain, w1.order, w1.blocksInSlot, w1.currentSlot);
  }

  /** A slot step keeps the globals valid. */
  lemma SlotStepValid(w: World, attack: bool, draws: SlotDraws)
    requires WorldValid(w) && 1 <= draws.numForks
    ensures WorldValid(SlotStep(w, attack, draws).0)
  {
    BegunReady(w);
    var w1 := Delivered(Ticked(w)).0;
    ProposedValid(w1, attack, draws);
    SettledValid(Proposed(w1, attack, draws));
  }

  /** Steps 0 and 1 of `simulate_one_slot`: the clock advances one slot (and
      one epoch every `SLOTS_PER_EPOCH` slots) and the votes due by then are
      applied. Blocks keep their place in the tree and their finalized flags
      and only gain votes; the new slot has no block yet. */
  method BeginSlot(w: World) returns (w': World, applied: seq<(nat, BlockId)>)
    requires WorldValid(w)
    ensures (w', applied) == Delivered(Ticked(w))
    ensures WorldValid(w')
    ensures w'.currentSlot == w.currentSlot + 1
    ensures w'.currentEpoch == w.currentEpoch + (if w'.currentSlot % SlotsPerEpoch == 0 then 1 else 0)
    ensures w'.metrics == w.metrics.(totalSlotsSimulated := w.metrics.totalSlotsSimulated + 1)
    ensures w'.order == w.order && w'.blocksInSlot == w.blocksInSlot
    ensures w'.maxDelaySlots == w.maxDelaySlots && w'.forkAttackProb == w.forkAttackProb
    ensures w'.quorumRatio == w.quorumRatio
    ensures SameTree(w.chain, w'.chain)
    ensures forall id :: id in w.chain ==>
      w'.chain[id].finalized == w.chain[id].finalized && w.chain[id].votesReceived <= w'.chain[id].votesReceived
    ensures BlocksAt(w'.blocksInSlot, w'.currentSlot) == [] && forall id :: id in w'.chain ==> w'.chain[id].slot < w'.currentSlot
  {
    var w1 := w.(currentSlot := w.currentSlot + 1);
    if w1.currentSlot % SlotsPerEpoch == 0 {
      w1 := w1.(currentEpoch := w1.currentEpoch + 1);
    }
    w1 := w1.(metrics := w1.metrics.(totalSlotsSimulated := w1.metrics.totalSlotsSimulated + 1));
    assert w1 == Ticked(w);
    BegunReady(w);
    DeliverKeeps(w1.validators, w1.chain, w1.order, w1.blocksInSlot, w1.currentSlot, w1.voteEvents, w1.metrics.totalFinalizations);
    w', applied := ApplyDueVotes(w1);
  }

  /** Step 2 of `simulate_one_slot`: `n` blocks (`numForks` of them when
      attacking and the fork coin falls below the fork probability, else one)
      are proposed on the head, which has no children. */
  method ProposeOnHead(w: World, attack: bool, draws: SlotDraws) returns (w': World, ids: seq<BlockId>, parent: BlockId)
    requires TreeValid(w.chain, w.order, w.blocksInSlot, w.currentSlot) && 1 <= draws.numForks
    requires BlocksAt(w.blocksInSlot, w.currentSlot) == [] && forall id :: id in w.chain ==> w.chain[id].slot < w.currentSlot
    ensures TreeValid(w'.chain, w'.order, w'.blocksInSlot, w'.currentSlot)
    ensures FinalizedIds(w'.chain) == FinalizedIds(w.chain)
    ensures ids == NewIds(w.currentSlot, if attack && draws.forkCoin < w.forkAttackProb then draws.numForks else 1)
    ensures forall id :: id in ids ==> id !in w.chain
    ensures parent == GhostHead(w.chain, w.order, w.validators, Genesis)
    ensures parent in w.chain && ChildrenIn(w.chain, w.order, parent) == []
    ensures w' == w.(chain := AddAll(w.chain, ids, w.currentSlot, parent, draws.proposer), order := w.order + ids,
                     blocksInSlot := w.blocksInSlot[w.currentSlot := ids])
  {
    var proposer := draws.proposer;
    parent := LmdGhostHead(w.chain, w.order, w.validators);
    var n := 1;
    if attack && draws.forkCoin < w.forkAttackProb {
      n := draws.numForks;
    }
    w', ids := ProposeBlocks(w, parent, proposer, n);
    assert TreeValid(w'.chain, w'.order, w'.blocksInSlot, w'.currentSlot) by {
      ProposedKeepsTree(w.chain, w.order, w.blocksInSlot, w.currentSlot, parent, proposer, n);
    }
    assert FinalizedIds(w'.chain) == FinalizedIds(w.chain) by {
      NewIdsFresh(w.chain, w.blocksInSlot, w.currentSlot, n);
      AddAllKeepsFinalized(w.chain, ids, w.currentSlot, parent, proposer);
    }
    NewIdsFresh(w.chain, w.blocksInSlot, w.currentSlot, n);
  }

  /** Steps 2 and 3 of `simulate_one_slot`: the blocks are proposed on the
      head, then each new block's votes are queued. */
  method ProposeAndSchedule(w: World, attack: bool, draws: SlotDraws) returns (w': World, ids: seq<BlockId>, parent: BlockId)
    requires ReadyToPropose(w) && 1 <= draws.numForks
    ensures w' == Proposed(w, attack, draws)
    ensures ids == NewIds(w.currentSlot, ForkCount(w, attack, draws))
    ensures parent == GhostHead(w.chain, w.order, w.validators, Genesis)
  {
    var w1;
    w1, ids, parent := ProposeOnHead(w, attack, draws);
    ghost var n := ForkCount(w, attack, draws);
    ghost var c := AddAll(w.chain, ids, w.currentSlot, parent, draws.proposer);
    assert w1 == w.(chain := c, order := w.order + ids, blocksInSlot := w.blocksInSlot[w.currentSlot := ids]);
    w1 := w1.(metrics := w1.metrics.(totalForks := w1.metrics.totalForks + |ids| - 1));
    var head := LmdGhostHead(w1.chain, w1.order, w1.validators);
    assert head == GhostHead(c, w.order + ids, w.validators, Genesis);
    w' := ScheduleAll(w1, ids, w.currentSlot, draws.delay, draws.voteCoin, head);
    ProposedFrom(w, attack, draws, head);
  }

  /** `Proposed` spelled out with the head of the new tree named `head`. */
  lemma ProposedFrom(w: World, attack: bool, draws: SlotDraws, head: BlockId)
    requires ReadyToPropose(w) && 1 <= draws.numForks
    requires var ids := NewIds(w.currentSlot, ForkCount(w, attack, draws));
      var c := AddAll(w.chain, ids, w.currentSlot, GhostHead(w.chain, w.order, w.validators, Genesis), draws.proposer);
      WellFormed(c) && head == GhostHead(c, w.order + ids, w.validators, Genesis)
    ensures var n := ForkCount(w, attack, draws);
      var ids := NewIds(w.currentSlot, n);
      var c := AddAll(w.chain, ids, w.currentSlot, GhostHead(w.chain, w.order, w.validators, Genesis), draws.proposer);
      Proposed(w, attack, draws)
      == w.(chain := c, order := w.order + ids, blocksInSlot := w.blocksInSlot[w.currentSlot := ids],
            metrics := w.metrics.(totalForks := w.metrics.totalForks + |ids| - 1),
            voteEvents := w.voteEvents + ScheduledAll(w.validators, ids, w.currentSlot, draws.delay, draws.voteCoin, head))
  {
  }

  /** What steps 2 and 3 do to the tree: `ForkCount` fresh blocks hang
      off the head of the tree, which was a leaf, and the globals stay
      valid. */
  lemma ProposedTree(w: World, attack: bool, draws: SlotDraws)
    requires ReadyToPropose(w) && 1 <= draws.numForks
    ensures WorldValid(Proposed(w, attack, draws))
    ensures var w', n := Proposed(w, attack, draws), ForkCount(w, attack, draws);
      var ids, parent := NewIds(w.currentSlot, n), GhostHead(w.chain, w.order, w.validators, Genesis);
      && (forall id :: id in ids ==> id !in w.chain)
      && parent in w.chain && ChildrenIn(w.chain, w.order, parent) == []
      && w'.chain == AddAll(w.chain, ids, w.currentSlot, parent, draws.proposer)
      && (forall id :: id in w'.chain <==> id in w.chain || id in ids)
  {
    var n := ForkCount(w, attack, draws);
    var ids, parent := NewIds(w.currentSlot, n), GhostHead(w.chain, w.order, w.validators, Genesis);
    var c := AddAll(w.chain, ids, w.currentSlot, parent, draws.proposer);
    ProposedKeepsTree(w.chain, w.order, w.blocksInSlot, w.currentSlot, parent, draws.proposer, n);
    ProposedFrom(w, attack, draws, GhostHead(c, w.order + ids, w.validators, Genesis));
    ProposedValid(w, attack, draws);
    NewIdsFresh(w.chain, w.blocksInSlot, w.currentSlot, n);
    AddAllEffect(w.chain, ids, w.currentSlot, parent, draws.proposer);
  }

  /** What the proposal does to the queue, the counters and the rest of
      the globals: the new blocks' votes are queued after the earlier ones,
      with delayed votes sent to the head of the new tree; one extra fork
      is counted per block beyond the first; nothing else changes. */
  lemma ProposedEffect(w: World, attack: bool, draws: SlotDraws)
    requires ReadyToPropose(w) && 1 <= draws.numForks
    ensures WorldValid(Proposed(w, attack, draws))
    ensures var w', n := Proposed(w, attack, draws), ForkCount(w, attack, draws);
      && w'.voteEvents == w.voteEvents + ScheduledAll(w.validators, NewIds(w.currentSlot, n), w.currentSlot,
                                                      draws.delay, draws.voteCoin,
                                                      GhostHead(w'.chain, w'.order, w.validators, Genesis))
      && w'.metrics == w.metrics.(totalForks := w.metrics.totalForks + n - 1)
      && w'.validators == w.validators
      && w'.currentSlot == w.currentSlot && w'.currentEpoch == w.currentEpoch
      && w'.maxDelaySlots == w.maxDelaySlots && w'.forkAttackProb == w.forkAttackProb
      && w'.quorumRatio == w.quorumRatio
  {
    var n := ForkCount(w, attack, draws);
    var ids, parent := NewIds(w.currentSlot, n), GhostHead(w.chain, w.order, w.validators, Genesis);
    var c := AddAll(w.chain, ids, w.currentSlot, parent, draws.proposer);
    ProposedKeepsTree(w.chain, w.order, w.blocksInSlot, w.currentSlot, parent, draws.proposer, n);
    ProposedFrom(w, attack, draws, GhostHead(c, w.order + ids, w.validators, Genesis));
    ProposedValid(w, attack, draws);
  }

  /** Queues whose votes name roster validators stay so when joined. */
  lemma EventsValidAppend(a: seq<VoteEvent>, b: seq<VoteEvent>)
    requires EventsValid(a) && EventsValid(b)
    ensures EventsValid(a + b)
  {
    forall k | 0 <= k < |a + b| ensures (a + b)[k].validator < NumValidators {
      if k >= |a| {
        assert (a + b)[k] == b[k - |a|];
      }
    }
  }

  /** Steps 5 and 6 of `simulate_one_slot`: the new blocks, then every
      listed block, are tried for finalization; afterwards a block is
      finalized exactly when it was or it holds a quorum, and each flag that
      turned on is counted once. */
  method FinalizeAll(w: World, ids: seq<BlockId>) returns (w': World)
    requires TreeValid(w.chain, w.order, w.blocksInSlot, w.currentSlot)
    requires forall k :: 0 <= k < |ids| ==> ids[k] in w.chain
    ensures w' == Finalized(w)
    ensures w'.chain == AllFinalized(w.chain, QuorumNeeded(w.quorumRatio))
    ensures SameTree(w.chain, w'.chain) && TreeValid(w'.chain, w.order, w.blocksInSlot, w.currentSlot)
    ensures w' == w.(chain := w'.chain, metrics := w'.metrics)
    ensures w'.metrics.totalSlotsSimulated == w.metrics.totalSlotsSimulated
    ensures w'.metrics.totalForks == w.metrics.totalForks
    ensures w'.metrics.totalFinalizations + |FinalizedIds(w.chain)| == w.metrics.totalFinalizations + |FinalizedIds(w'.chain)|
  {
    var q := QuorumNeeded(w.quorumRatio);
    var w1 := FinalizeEach(w, ids);
    assert SameTree(w.chain, w1.chain) && TreeValid(w1.chain, w.order, w.blocksInSlot, w.currentSlot) by {
      FinalizeSeqKeeps(w.chain, ids, q);
      SameTreeValid(w.chain, w1.chain, w.order, w.blocksInSlot, w.currentSlot);
    }
    w' := FinalizeSweep(w1);
    assert SameTree(w.chain, w'.chain) && TreeValid(w'.chain, w.order, w.blocksInSlot, w.currentSlot) by {
      FinalizeSeqKeeps(w1.chain, SlotsUpTo(w.blocksInSlot, w.currentSlot + 1), q);
      SameTreeValid(w1.chain, w'.chain, w.order, w.blocksInSlot, w.currentSlot);
    }
    assert w'.chain == AllFinalized(w.chain, q) by {
      SweepAll(w.chain, ids, w.blocksInSlot, w.currentSlot, q);
    }
    NewlyFinalized(w.chain, q);
  }

  /** Steps 4 to 6 of `simulate_one_slot`: the votes due at once are
      applied, then the new blocks and every listed block are tried for
      finalization, so a block ends finalized exactly when it was or it holds
      a quorum; no vote due by now is left queued. */
  method DeliverAndFinalize(w: World, ids: seq<BlockId>) returns (w': World, applied: seq<(nat, BlockId)>)
    requires WorldValid(w) && forall k :: 0 <= k < |ids| ==> ids[k] in w.chain
    ensures w' == Finalized(Delivered(w).0) && applied == Delivered(w).1
    ensures WorldValid(w')
    ensures SameTree(w.chain, w'.chain)
    ensures forall id :: id in w'.chain ==>
      && w.chain[id].votesReceived <= w'.chain[id].votesReceived
      && (w'.chain[id].finalized <==> w.chain[id].finalized || |w'.chain[id].votesReceived| >= QuorumNeeded(w.quorumRatio))
    ensures w'.metrics.totalSlotsSimulated == w.metrics.totalSlotsSimulated
    ensures w'.metrics.totalForks == w.metrics.totalForks
    ensures forall k :: 0 <= k < |w'.voteEvents| ==> w'.voteEvents[k].deliverSlot > w.currentSlot
    ensures w'.currentSlot == w.currentSlot && w'.currentEpoch == w.currentEpoch && w'.order == w.order
    ensures w'.maxDelaySlots == w.maxDelaySlots && w'.forkAttackProb == w.forkAttackProb
    ensures w'.quorumRatio == w.quorumRatio
  {
    DeliverKeeps(w.validators, w.chain, w.order, w.blocksInSlot, w.currentSlot, w.voteEvents, w.metrics.totalFinalizations);
    var w1;
    w1, applied := ApplyDueVotes(w);
    w' := FinalizeAll(w1, ids);
  }

  /** What one slot does to the stored blocks `c` (listed in `o`), giving
      `c'`: the blocks `created` are added, all children of `p`, which was a
      leaf, in slot `slot` by `proposer`; votes only grow; and a block is
      finalized exactly when it was or it has `q` votes. */
  ghost predicate TreeStepped(c: Chain, o: seq<BlockId>, c': Chain, created: seq<BlockId>, slot: nat,
                              proposer: nat, q: int, p: BlockId)
  {
    && (forall id :: id in c' <==> id in c || id in created)
    && p in c && ChildrenIn(c, o, p) == []
    && (forall id :: id in created ==>
          && c'[id].parent == Some(p) && c'[id].slot == slot && c'[id].proposer == Some(proposer))
    && (forall id :: id in c ==> c[id].votesReceived <= c'[id].votesReceived)
    && (forall id :: id in c' ==> (c'[id].finalized <==> (id in c && c[id].finalized) || |c'[id].votesReceived| >= q))
  }

  /** What one call of `simulate_one_slot(attack)` with the draws `draws`
      does to the globals `w`, giving `w'` and the reply `out`, stated over
      the globals after the first delivery (`w1`) and after the proposal
      (`w2`). */
  ghost predicate SlotStepped(w: World, w': World, out: SlotOutcome, attack: bool, draws: SlotDraws)
    requires WorldValid(w) && 1 <= draws.numForks
  {
    var s, n := w.currentSlot + 1, ForkCount(w, attack, draws);
    // the clock and the counters
    && w'.currentSlot == s && out.slot == s
    && w'.currentEpoch == w.currentEpoch + (if s % SlotsPerEpoch == 0 then 1 else 0)
    && w'.metrics.totalSlotsSimulated == w.metrics.totalSlotsSimulated + 1
    && w'.metrics.totalForks == w.metrics.totalForks + n - 1
    // `n` new blocks on the head of the tree once the due votes are in
    && out.createdBlocks == NewIds(s, n)
    && SlotTreeStepped(w, w'.chain, attack, draws)
    // the queue and the votes applied
    && SlotQueueStepped(w, w'.voteEvents, out.appliedVotes, attack, draws)
    // the roster keeps its ids and flags; the settings are untouched
    && SameRoster(w.validators, w'.validators)
    && w'.maxDelaySlots == w.maxDelaySlots && w'.forkAttackProb == w.forkAttackProb
    && w'.quorumRatio == w.quorumRatio
  }

  /** The tree part of `SlotStepped`: the slot's blocks hang off the head of
      the tree after the first delivery (`w1`), giving the stored blocks `c'`. */
  ghost predicate SlotTreeStepped(w: World, c': Chain, attack: bool, draws: SlotDraws)
    requires WorldValid(w) && 1 <= draws.numForks
  {
    BegunReady(w);
    var w1 := Delivered(Ticked(w)).0;
    var s := w1.currentSlot;
    TreeStepped(w.chain, w.order, c', NewIds(s, ForkCount(w, attack, draws)), s, draws.proposer,
                QuorumNeeded(w.quorumRatio), GhostHead(w1.chain, w1.order, w1.validators, Genesis))
  }

  /** The queue part of `SlotStepped`, giving the queue `q'` and the applied
      pairs `applied`: the earlier votes not yet due, in order, then this
      slot's votes not yet due, each for a new block or the head of the tree
      after the proposal (`w2`); one applied pair per vote due, the earlier
      ones first, then this slot's votes due at once. */
  ghost predicate SlotQueueStepped(w: World, q': seq<VoteEvent>, applied: seq<(nat, BlockId)>,
                                   attack: bool, draws: SlotDraws)
    requires WorldValid(w) && 1 <= draws.numForks
  {
    BegunReady(w);
    var w1 := Delivered(Ticked(w)).0;
    ProposedValid(w1, attack, draws);
    var w2 := Proposed(w1, attack, draws);
    var s := w1.currentSlot;
    var ids := NewIds(s, ForkCount(w, attack, draws));
    var head := GhostHead(w2.chain, w2.order, w1.validators, Genesis);
    var added := ScheduledAll(w1.validators, ids, s, draws.delay, draws.voteCoin, head);
    && q' == Pending(w.voteEvents, s) + Pending(added, s)
    && ScheduledWithin(added, ids, s, head, w.maxDelaySlots)
    && applied == Delivered(Ticked(w)).1 + Delivered(w2).1
    && |applied| == |Due(w.voteEvents, s)| + |Due(added, s)|
  }

  /** The ranges `simulate_one_slot` draws from: a proposer of the roster,
      one to three fork blocks, and every vote delay in `0..maxDelay`. */
  ghost predicate DrawsFit(draws: SlotDraws, maxDelay: int) {
    && draws.proposer < NumValidators && 1 <= draws.numForks <= 3
    && forall b, v :: 0 <= draws.delay(b, v) <= maxDelay
  }

  /** `simulate_one_slot(attack)` with the slot's random draws. */
  method SimulateOneSlot(w: World, attack: bool, draws: SlotDraws) returns (w': World, out: SlotOutcome)
    requires WorldValid(w) && DrawsFit(draws, w.maxDelaySlots)
    ensures w' == SlotStep(w, attack, draws).0 && out == SlotStep(w, attack, draws).1
  {
    var w1, applied := BeginSlot(w);
    BegunReady(w);
    var w2, ids, p := ProposeAndSchedule(w1, attack, draws);
    ProposedTree(w1, attack, draws);
    forall k | 0 <= k < |ids| ensures ids[k] in w2.chain {
      assert ids[k] in ids;
    }
    var newlyApplied;
    w', newlyApplied := DeliverAndFinalize(w2, ids);
    out := SlotOutcome(w'.currentSlot, ids, applied + newlyApplied);
    SlotStepPhases(w, attack, draws);
  }

  /** A slot moves the clock and the slot counter on by one, reports the
      new slot and keeps the settings. */
  lemma SlotStepClock(w: World, attack: bool, draws: SlotDraws)
    requires WorldValid(w) && 1 <= draws.numForks
    ensures var r := SlotStep(w, attack, draws);
      && r.0.currentSlot == w.currentSlot + 1 && r.1.slot == w.currentSlot + 1
      && r.0.metrics.totalSlotsSimulated == w.metrics.totalSlotsSimulated + 1
      && r.0.maxDelaySlots == w.maxDelaySlots && r.0.forkAttackProb == w.forkAttackProb
      && r.0.quorumRatio == w.quorumRatio
  {
    SlotStepPhases(w, attack, draws);
    TickedClock(w);
  }

  /** Moving the clock on changes the slot, the epoch and the slot counter only. */
  lemma TickedClock(w: World)
    ensures var t := Ticked(w);
      && t.chain == w.chain && t.order == w.order && t.validators == w.validators
      && t.blocksInSlot == w.blocksInSlot && t.voteEvents == w.voteEvents
      && t.metrics.totalForks == w.metrics.totalForks
      && t.metrics.totalFinalizations == w.metrics.totalFinalizations
      && t.currentSlot == w.currentSlot + 1
      && t.currentEpoch == w.currentEpoch + (if t.currentSlot % SlotsPerEpoch == 0 then 1 else 0)
      && t.metrics.totalSlotsSimulated == w.metrics.totalSlotsSimulated + 1
      && t.forkAttackProb == w.forkAttackProb && t.maxDelaySlots == w.maxDelaySlots
      && t.quorumRatio == w.quorumRatio
  {
  }

  /** A slot moves the epoch on exactly at an epoch boundary. */
  lemma SlotStepEpoch(w: World, attack: bool, draws: SlotDraws)
    requires WorldValid(w) && 1 <= draws.numForks
    ensures var s := w.currentSlot + 1;
      SlotStep(w, attack, draws).0.currentEpoch == w.currentEpoch + (if s % SlotsPerEpoch == 0 then 1 else 0)
  {
    SlotStepPhases(w, attack, draws);
    TickedClock(w);
  }

  /** The number of proposed blocks depends only on the fork probability and the draws. */
  lemma SameForkCount(a: World, b: World, attack: bool, draws: SlotDraws)
    requires a.forkAttackProb == b.forkAttackProb
    ensures ForkCount(a, attack, draws) == ForkCount(b, attack, draws)
  {
  }

  /** A slot reports the ids of the blocks it created. */
  lemma SlotStepCreated(w: World, attack: bool, draws: SlotDraws)
    requires WorldValid(w) && 1 <= draws.numForks
    ensures SlotStep(w, attack, draws).1.createdBlocks == NewIds(w.currentSlot + 1, ForkCount(w, attack, draws))
  {
    SlotStepPhases(w, attack, draws);
    TickedClock(w);
  }

  /** A slot counts one fork per block beyond the first. */
  lemma SlotStepForks(w: World, attack: bool, draws: SlotDraws)
    requires WorldValid(w) && 1 <= draws.numForks
    ensures SlotStep(w, attack, draws).0.metrics.totalForks == w.metrics.totalForks + ForkCount(w, attack, draws) - 1
  {
    SlotStepPhases(w, attack, draws);
    var w1 := Delivered(Ticked(w)).0;
    assert w1.metrics == Ticked(w).metrics;
    assert ForkCount(w1, attack, draws) == ForkCount(w, attack, draws);
    ProposedEffect(w1, attack, draws);
    var d := Delivered(Proposed(w1, attack, draws)).0;
    assert Finalized(d).metrics.totalForks == d.metrics.totalForks;
  }

  /** `SlotStep` as its three phases, each named by its own function. */
  lemma SlotStepPhases(w: World, attack: bool, draws: SlotDraws)
    requires WorldValid(w) && 1 <= draws.numForks
    ensures ReadyToPropose(Delivered(Ticked(w)).0)
    ensures var w1 := Delivered(Ticked(w)).0;
      var w2 := Proposed(w1, attack, draws);
      && WorldValid(w2)
      && Finalized(Delivered(w2).0).currentSlot == w1.currentSlot
      && SlotStep(w, attack, draws)
         == (Finalized(Delivered(w2).0),
             SlotOutcome(w1.currentSlot, NewIds(w1.currentSlot, ForkCount(w1, attack, draws)),
                         Delivered(Ticked(w)).1 + Delivered(w2).1))
  {
    BegunReady(w);
    ProposedValid(Delivered(Ticked(w)).0, attack, draws);
  }

  /** Every slot step does what `SlotStepped` says. */
  lemma SlotStepMeaning(w: World, attack: bool, draws: SlotDraws)
    requires WorldValid(w) && DrawsFit(draws, w.maxDelaySlots)
    ensures var r := SlotStep(w, attack, draws);
      WorldValid(r.0) && SlotStepped(w, r.0, r.1, attack, draws)
  {
    TickedClock(w);
    SlotStepValid(w, attack, draws);
    SlotStepClock(w, attack, draws);
    SlotStepEpoch(w, attack, draws);
    SlotStepCreated(w, attack, draws);
    SlotStepForks(w, attack, draws);
    SlotTreeMeaning(w, attack, draws);
    SlotQueueMeaning(w, attack, draws);
    SlotRosterMeaning(w, attack, draws);
  }

  /** The queue part of `SlotStepped`. */
  lemma SlotQueueMeaning(w: World, attack: bool, draws: SlotDraws)
    requires WorldValid(w) && DrawsFit(draws, w.maxDelaySlots)
    ensures var r := SlotStep(w, attack, draws);
      SlotQueueStepped(w, r.0.voteEvents, r.1.appliedVotes, attack, draws)
  {
    SlotQueuePhases(w, attack, draws);
    SlotStepPhases(w, attack, draws);
  }

  /** The queue part of `SlotStepped`, over the globals the phases pass on. */
  lemma SlotQueuePhases(w: World, attack: bool, draws: SlotDraws)
    requires WorldValid(w) && DrawsFit(draws, w.maxDelaySlots)
    ensures ReadyToPropose(Delivered(Ticked(w)).0)
    ensures var w2 := Proposed(Delivered(Ticked(w)).0, attack, draws);
      && WorldValid(w2)
      && SlotQueueStepped(w, Finalized(Delivered(w2).0).voteEvents, Delivered(Ticked(w)).1 + Delivered(w2).1,
                          attack, draws)
  {
    BegunReady(w);
    var w1 := Delivered(Ticked(w)).0;
    ProposedEffect(w1, attack, draws);
    ProposedValid(w1, attack, draws);
    var w2 := Proposed(w1, attack, draws);
    var s := w1.currentSlot;
    var ids := NewIds(s, ForkCount(w, attack, draws));
    var head := GhostHead(w2.chain, w2.order, w1.validators, Genesis);
    var added := ScheduledAll(w1.validators, ids, s, draws.delay, draws.voteCoin, head);
    assert w2.voteEvents == Pending(w.voteEvents, s) + added;
    QueueAfterDelivery(w.voteEvents, added, s);
    ScheduledAllTargets(w1.validators, ids, s, draws.delay, draws.voteCoin, head, w.maxDelaySlots);
  }

  /** The roster part of `SlotStepped`: every validator keeps its id and
      flags through both deliveries. */
  lemma SlotRosterMeaning(w: World, attack: bool, draws: SlotDraws)
    requires WorldValid(w) && 1 <= draws.numForks
    ensures SameRoster(w.validators, SlotStep(w, attack, draws).0.validators)
  {
    SlotRoster(w, attack, draws);
    var w1 := Delivered(Ticked(w)).0;
    DeliveredFlags(Ticked(w));
    DeliveredFlags(Proposed(w1, attack, draws));
    RosterTrans(w.validators, w1.validators, SlotStep(w, attack, draws).0.validators);
  }

  /** The roster after a slot is the roster of the second delivery, which
      starts from the roster of the first. */
  lemma SlotRoster(w: World, attack: bool, draws: SlotDraws)
    requires WorldValid(w) && 1 <= draws.numForks
    ensures ReadyToPropose(Delivered(Ticked(w)).0)
    ensures var w2 := Proposed(Delivered(Ticked(w)).0, attack, draws);
      && WorldValid(w2)
      && w2.validators == Delivered(Ticked(w)).0.validators
      && SlotStep(w, attack, draws).0.validators == Delivered(w2).0.validators
  {
    BegunReady(w);
    ProposedValid(Delivered(Ticked(w)).0, attack, draws);
  }

  lemma RosterTrans(a: seq<Validator>, b: seq<Validator>, c: seq<Validator>)
    requires SameRoster(a, b) && SameRoster(b, c)
    ensures SameRoster(a, c)
  {
  }

  /** One delivery keeps every validator's id and flags. */
  lemma DeliveredFlags(w: World)
    requires Genesis in w.chain && |w.validators| == NumValidators && EventsValid(w.voteEvents)
    ensures SameRoster(w.validators, Delivered(w).0.validators)
  {
    var s := w.currentSlot;
    ApplyVotesShape(w.chain, w.validators, Due(w.voteEvents, s), s, Latest(w.chain));
  }

  /** The tree part of `SlotStepped`. */
  lemma SlotTreeMeaning(w: World, attack: bool, draws: SlotDraws)
    requires WorldValid(w) && 1 <= draws.numForks
    ensures SlotTreeStepped(w, SlotStep(w, attack, draws).0.chain, attack, draws)
  {
    SlotTreePhases(w, attack, draws);
    SlotStepPhases(w, attack, draws);
  }

  /** The tree part of `SlotStepped`, over the globals the phases pass on. */
  lemma SlotTreePhases(w: World, attack: bool, draws: SlotDraws)
    requires WorldValid(w) && 1 <= draws.numForks
    ensures ReadyToPropose(Delivered(Ticked(w)).0)
    ensures var w1 := Delivered(Ticked(w)).0;
      var w2 := Proposed(w1, attack, draws);
      && WorldValid(w2)
      && TreeStepped(w.chain, w.order, Finalized(Delivered(w2).0).chain,
                     NewIds(w1.currentSlot, ForkCount(w, attack, draws)), w1.currentSlot, draws.proposer,
                     QuorumNeeded(w.quorumRatio), GhostHead(w1.chain, w1.order, w1.validators, Genesis))
  {
    BegunTree(w);
    var w1 := Delivered(Ticked(w)).0;
    ProposedTree(w1, attack, draws);
    var w2 := Proposed(w1, attack, draws);
    SettledTree(w2);
    SameForkCount(w1, w, attack, draws);
    var ids := NewIds(w1.currentSlot, ForkCount(w, attack, draws));
    var parent := GhostHead(w1.chain, w1.order, w1.validators, Genesis);
    TreeComposed(w.chain, w1.chain, w2.chain, Finalized(Delivered(w2).0).chain, w1.order, ids, w1.currentSlot,
                 parent, draws.proposer, QuorumNeeded(w.quorumRatio));
  }

  /** Moving the clock on and applying the due votes keeps the tree and its
      finalized flags, and only adds votes. */
  lemma BegunTree(w: World)
    requires WorldValid(w)
    ensures ReadyToPropose(Delivered(Ticked(w)).0)
    ensures var w1 := Delivered(Ticked(w)).0;
      && w1.order == w.order && w1.quorumRatio == w.quorumRatio && w1.forkAttackProb == w.forkAttackProb
      && SameTree(w.chain, w1.chain)
      && forall id :: id in w.chain ==>
           w1.chain[id].finalized == w.chain[id].finalized && w.chain[id].votesReceived <= w1.chain[id].votesReceived
  {
    BegunReady(w);
    TickedClock(w);
    var w0 := Ticked(w);
    DeliverKeeps(w0.validators, w0.chain, w0.order, w0.blocksInSlot, w0.currentSlot, w0.voteEvents,
                 w0.metrics.totalFinalizations);
  }

  /** Applying the due votes and then finalizing keeps the tree, only adds
      votes, and leaves a block finalized exactly when it was or it holds a
      quorum. */
  lemma SettledTree(w: World)
    requires WorldValid(w)
    ensures var c' := Finalized(Delivered(w).0).chain;
      && SameTree(w.chain, c')
      && forall id :: id in c' ==>
           && w.chain[id].votesReceived <= c'[id].votesReceived
           && (c'[id].finalized <==> w.chain[id].finalized || |c'[id].votesReceived| >= QuorumNeeded(w.quorumRatio))
  {
    DeliverKeeps(w.validators, w.chain, w.order, w.blocksInSlot, w.currentSlot, w.voteEvents, w.metrics.totalFinalizations);
    var c1 := Delivered(w).0.chain;
    NewlyFinalized(c1, QuorumNeeded(w.quorumRatio));
  }

  /** The tree part of one slot: the head's children are added by
      `ProposeAndSchedule`, the other phases keep the tree and only add votes
      and finalized flags. */
  lemma TreeComposed(c: Chain, c1: Chain, c2: Chain, c': Chain, o: seq<BlockId>, ids: seq<BlockId>,
                     slot: nat, p: BlockId, proposer: nat, q: int)
    requires SameTree(c, c1)
    requires forall id :: id in c ==> c1[id].finalized == c[id].finalized && c[id].votesReceived <= c1[id].votesReceived
    requires forall id :: id in ids ==> id !in c1
    requires p in c1 && ChildrenIn(c1, o, p) == []
    requires c2 == AddAll(c1, ids, slot, p, proposer)
    requires SameTree(c2, c')
    requires forall id :: id in c' ==>
      && c2[id].votesReceived <= c'[id].votesReceived
      && (c'[id].finalized <==> c2[id].finalized || |c'[id].votesReceived| >= q)
    ensures TreeStepped(c, o, c', ids, slot, proposer, q, p)
  {
    assert ChildrenIn(c, o, p) == [] by {
      SameTreeChildren(c, c1, o, p);
    }
    assert forall id :: id in c' <==> id in c || id in ids by {
      AddAllEffect(c1, ids, slot, p, proposer);
    }
    forall id | id in ids ensures c'[id].parent == Some(p) && c'[id].slot == slot && c'[id].proposer == Some(proposer) {
      AddAllEffect(c1, ids, slot, p, proposer);
      assert c2[id] == Block(id, slot, Some(p), {}, false, Some(proposer));
    }
    VotesComposed(c, c1, c2, c', ids, slot, p, proposer, q);
  }

  /** Across the slot's phases a block's votes only grow, and at the end it
      is finalized exactly when it was before or it holds a quorum. */
  lemma VotesComposed(c: Chain, c1: Chain, c2: Chain, c': Chain, ids: seq<BlockId>, slot: nat, p: BlockId,
                      proposer: nat, q: int)
    requires c.Keys == c1.Keys
    requires forall id :: id in c ==> c1[id].finalized == c[id].finalized && c[id].votesReceived <= c1[id].votesReceived
    requires forall id :: id in ids ==> id !in c1
    requires c2 == AddAll(c1, ids, slot, p, proposer)
    requires c2.Keys == c'.Keys
    requires forall id :: id in c' ==>
      && c2[id].votesReceived <= c'[id].votesReceived
      && (c'[id].finalized <==> c2[id].finalized || |c'[id].votesReceived| >= q)
    ensures forall id :: id in c ==> id in c' && c[id].votesReceived <= c'[id].votesReceived
    ensures forall id :: id in c' ==> (c'[id].finalized <==> (id in c && c[id].finalized) || |c'[id].votesReceived| >= q)
  {
    AddAllEffect(c1, ids, slot, p, proposer);
    forall id | id in c ensures id in c' && c[id].votesReceived <= c'[id].votesReceived {
      assert id !in ids;
      assert c2[id] == c1[id];
    }
    forall id | id in c' ensures c'[id].finalized <==> (id in c && c[id].finalized) || |c'[id].votesReceived| >= q {
      if id in ids {
        assert id !in c;
        assert !c2[id].finalized;
      } else {
        assert id in c;
        assert c2[id] == c1[id];
      }
    }
  }

  /** The attack loop run for `k` slots on the draws `ds`, slot `i` with
      `ds[i]`: the globals afterwards and the replies in order. */
  ghost function AttackRun(w: World, ds: seq<SlotDraws>, k: nat): (r: (World, seq<SlotOutcome>))
    requires WorldValid(w) && k <= |ds| && forall i :: 0 <= i < |ds| ==> DrawsFit(ds[i], w.maxDelaySlots)
    ensures WorldValid(r.0) && |r.1| == k
    ensures r.0.currentSlot == w.currentSlot + k
    ensures r.0.metrics.totalSlotsSimulated == w.metrics.totalSlotsSimulated + k
    ensures r.0.maxDelaySlots == w.maxDelaySlots && r.0.forkAttackProb == w.forkAttackProb
    ensures r.0.quorumRatio == w.quorumRatio
    ensures SlotsInOrder(r.1, w.currentSlot)
  {
    if k == 0 then (w, [])
    else
      var p := AttackRun(w, ds, k - 1);
      SlotStepValid(p.0, true, ds[k - 1]);
      SlotStepClock(p.0, true, ds[k - 1]);
      var q := SlotStep(p.0, true, ds[k - 1]);
      SlotsInOrderSnoc(p.1, q.1, w.currentSlot);
      (q.0, p.1 + [q.1])
  }

  /** Reply `i` of `rs` is for slot `base + i + 1`. */
  predicate SlotsInOrder(rs: seq<SlotOutcome>, base: int) {
    forall i :: 0 <= i < |rs| ==> rs[i].slot == base + i + 1
  }

  lemma SlotsInOrderSnoc(rs: seq<SlotOutcome>, o: SlotOutcome, base: int)
    requires SlotsInOrder(rs, base) && o.slot == base + |rs| + 1
    ensures SlotsInOrder(rs + [o], base)
  {
    assert forall i :: 0 <= i < |rs| ==> (rs + [o])[i] == rs[i];
  }

  /** One more slot of the attack loop is one more `SlotStep`. */
  lemma AttackRunStep(w: World, ds: seq<SlotDraws>, k: nat)
    requires WorldValid(w) && k < |ds| && forall i :: 0 <= i < |ds| ==> DrawsFit(ds[i], w.maxDelaySlots)
    ensures var p := AttackRun(w, ds, k);
      && AttackRun(w, ds, k + 1).0 == SlotStep(p.0, true, ds[k]).0
      && AttackRun(w, ds, k + 1).1 == p.1 + [SlotStep(p.0, true, ds[k]).1]
  {
  }

  /** Globals and replies that are the attack loop's after `k` slots, taken
      one `SlotStep` further, are the loop's after `k + 1`. */
  lemma AttackRunNext(w: World, ds: seq<SlotDraws>, k: nat, v: World, rs: seq<SlotOutcome>,
                      v': World, o: SlotOutcome)
    requires WorldValid(w) && k < |ds| && forall i :: 0 <= i < |ds| ==> DrawsFit(ds[i], w.maxDelaySlots)
    requires v == AttackRun(w, ds, k).0 && rs == AttackRun(w, ds, k).1
    requires v' == SlotStep(v, true, ds[k]).0 && o == SlotStep(v, true, ds[k]).1
    ensures v' == AttackRun(w, ds, k + 1).0 && rs + [o] == AttackRun(w, ds, k + 1).1
    ensures WorldValid(v') && v'.maxDelaySlots == w.maxDelaySlots
  {
    AttackRunStep(w, ds, k);
  }

  /** `api_simulate_attack`: `count` slots in attack mode (none when `count`
      is not positive), the i-th with the draws `draws[i]`; the replies are
      collected in order. The reply's `ran` echoes the requested count, even
      a negative one. */
  method SimulateAttack(w: World, count: int, draws: seq<SlotDraws>)
    returns (w': World, ran: int, results: seq<SlotOutcome>)
    requires WorldValid(w)
    requires count <= |draws|
    requires forall i :: 0 <= i < |draws| ==> DrawsFit(draws[i], w.maxDelaySlots)
    ensures ran == count && |results| == if count > 0 then count else 0
    ensures w' == AttackRun(w, draws, |results|).0 && results == AttackRun(w, draws, |results|).1
    ensures WorldValid(w')
    ensures w'.currentSlot == w.currentSlot + |results|
    ensures w'.metrics.totalSlotsSimulated == w.metrics.totalSlotsSimulated + |results|
    ensures SlotsInOrder(results, w.currentSlot)
    ensures w'.maxDelaySlots == w.maxDelaySlots && w'.forkAttackProb == w.forkAttackProb
    ensures w'.quorumRatio == w.quorumRatio
  {
    var n := if count > 0 then count else 0;
    w', ran := w, count;
    results := [];
    var i := 0;
    while i < n
      invariant 0 <= i <= n && |results| == i
      invariant w' == AttackRun(w, draws, i).0 && results == AttackRun(w, draws, i).1
      invariant WorldValid(w') && w'.maxDelaySlots == w.maxDelaySlots
    {
      assert DrawsFit(draws[i], w'.maxDelaySlots);
      var next, out := SimulateOneSlot(w', true, draws[i]);
      AttackRunNext(w, draws, i, w', results, next, out);
      w', results := next, results + [out];
      i := i + 1;
    }
  }

  /** The globals of `server2.py`, updated in place by its endpoints. */
  class Simulator {
    var currentSlot: nat
    var currentEpoch: nat
    var validators: seq<Validator>
    var chain: Chain
    /** The key order of `chain` (insertion order), which fixes the order
        `chain.values()` is walked in. */
    var order: seq<BlockId>
    var blocksInSlot: map<nat, seq<BlockId>>
    var voteEvents: seq<VoteEvent>
    var metrics: Metrics
    var maxDelaySlots: int
    var forkAttackProb: real
    var quorumRatio: real

    function State(): World
      reads this
    {
      World(currentSlot, currentEpoch, validators, chain, order, blocksInSlot, voteEvents, metrics,
            maxDelaySlots, forkAttackProb, quorumRatio)
    }

    ghost predicate Valid()
      reads this
    {
      WorldValid(State())
    }

    /** Writes `w` back into the globals. */
    method Store(w: World)
      modifies this
      ensures State() == w
    {
      currentSlot, currentEpoch, validators, chain, order := w.currentSlot, w.currentEpoch, w.validators, w.chain, w.order;
      blocksInSlot, voteEvents, metrics := w.blocksInSlot, w.voteEvents, w.metrics;
      maxDelaySlots, forkAttackProb, quorumRatio := w.maxDelaySlots, w.forkAttackProb, w.quorumRatio;
    }

    /** Module start-up: the globals with their initial settings, and
        `init_genesis`. */
    constructor ()
      ensures State() == InitialWorld(InitialMaxDelaySlots, InitialForkAttackProb, InitialQuorumRatio)
      ensures Valid()
    {
      var w := InitialWorld(InitialMaxDelaySlots, InitialForkAttackProb, InitialQuorumRatio);
      currentSlot, currentEpoch, validators, chain, order := w.currentSlot, w.currentEpoch, w.validators, w.chain, w.order;
      blocksInSlot, voteEvents, metrics := w.blocksInSlot, w.voteEvents, w.metrics;
      maxDelaySlots, forkAttackProb, quorumRatio := w.maxDelaySlots, w.forkAttackProb, w.quorumRatio;
      new;
      InitialWorldValid(InitialMaxDelaySlots, InitialForkAttackProb, InitialQuorumRatio);
    }

    /** `api_simulate_slot`: one `simulate_one_slot(attack)`. */
    method SimulateSlot(attack: bool, draws: SlotDraws) returns (out: SlotOutcome)
      requires Valid() && DrawsFit(draws, maxDelaySlots)
      modifies this
      ensures Valid()
      ensures (State(), out) == SlotStep(old(State()), attack, draws)
      ensures SlotStepped(old(State()), State(), out, attack, draws)
    {
      var w;
      w, out := SimulateOneSlot(State(), attack, draws);
      SlotStepMeaning(old(State()), attack, draws);
      Store(w);
    }

    /** `api_simulate_attack`. */
    method SimulateAttackSlots(count: int, draws: seq<SlotDraws>) returns (ran: int, results: seq<SlotOutcome>)
      requires Valid()
      requires count <= |draws|
      requires forall i :: 0 <= i < |draws| ==> DrawsFit(draws[i], maxDelaySlots)
      modifies this
      ensures Valid()
      ensures ran == count && |results| == if count > 0 then count else 0
      ensures (State(), results) == AttackRun(old(State()), draws, |results|)
      ensures currentSlot == old(currentSlot) + |results|
    {
      var w;
      w, ran, results := SimulateAttack(State(), count, draws);
      Store(w);
    }

    /** `api_toggle_fault`. */
    method ToggleValidatorFault(vid: Option<int>) returns (reply: ToggleReply)
      requires Valid()
      modifies this
      ensures Valid()
      ensures (State(), reply) == ToggleFault(old(State()), vid)
    {
      var w := State();
      ToggleFaultEffect(w, vid);
      var r := ToggleFault(w, vid);
      Store(r.0);
      reply := r.1;
    }

    /** `api_config` (POST). */
    method SetConfig(maxDelay: Option<int>, forkProb: Option<real>, ratio: Option<real>)
      requires Valid()
      modifies this
      ensures Valid()
      ensures State() == Configure(old(State()), maxDelay, forkProb, ratio)
    {
      var w := State();
      ConfigureEffect(w, maxDelay, forkProb, ratio);
      Store(Configure(w, maxDelay, forkProb, ratio));
    }

    /** `api_reset`. */
    method ResetState()
      modifies this
      ensures Valid()
      ensures State() == Reset(old(State()))
    {
      var w := State();
      ResetEffect(w);
      Store(Reset(w));
    }
  }
}
