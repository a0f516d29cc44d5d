# SlotZero in Dafny

SlotZero is a teaching demo of single-slot finality (SSF) and LMD-GHOST fork
choice. This project models its core and proves properties of that model.

- **`server2.py`** is the block-tree simulator. Validators vote for blocks
  after a random network delay. A block is finalized in the slot in which it
  gathers `ceil(19 * quorum_ratio)` votes. The head is chosen by a simplified
  LMD-GHOST walk from genesis. A fork attack makes one to three sibling
  blocks in a slot.
- **`server.py`** is the older simulator, with one block per slot. A block is
  finalized when at least `int(10 * 2/3) = 6` non-faulty validators vote for
  it. The head is the latest finalized slot.
- **`fork_choice.py` and `ssf_engine.py`** are the small engine: a
  vote-counting fork choice and a round-robin slot runner.
- **`app.js`** is the visualizer. The model covers four parts:
  - the fork-aware tree layout;
  - the pool of vote packets in flight and the flashes they leave on arrival;
  - the walk up a block's parent chain;
  - the experiment runner. It applies a faulty fraction, sweeps fault
    fraction against vote delay, derives metrics and does the chart
    arithmetic.

The modules follow the program:

| module | file | models |
|---|---|---|
| `Common` | common.dfy | decimal text of numbers, `"a:b"` ids, ascending enumeration of a set |
| `ForkChoice` | fork_choice.dfy | `fork_choice.py` as a class over maps |
| `SsfEngine` | ssf_engine.dfy | `ssf_engine.py`, a class holding a `ForkChoice` |
| `LegacyServer` | legacy_server.dfy | `server.py`, a class holding the module globals |
| `BlockTree` | block_tree.dfy | the specification functions of `server2.py`'s tree: ancestry, subtree, weight, the GHOST walk, the latest block |
| `SsfServer` | ssf_server.dfy | `server2.py`: each helper as a method over the globals (`World`); the Flask endpoints; the globals as class `Simulator` |
| `TreeView` | tree_view.dfy | `app.js` layout, packets, flashes, parent-chain walk, as class `Visualizer` |
| `Sweep` | sweep.dfy | `app.js` `applyFaultFraction`, `runSweep`, `drawSweepCharts`, `simpleLineChart` |

Randomness becomes a parameter. Each random draw of the source is an input:
- `SlotDraws` holds one slot's draws: the proposer, the fork coin and the
  number of forks;
- `delay` and `coin` are functions giving each validator's draws;
- `u` and `forkPick` are the draws of `server.py`;
- `fails` is the set of sweep cells whose requests fail.

Python floats and JavaScript numbers are modelled as exact reals.

## Model

| member | source | states |
|---|---|---|
| `Common.ParseNatToString` | server2.py:98-99 | reading the decimal text of a slot or index number gives the number back |
| `Common.NatToStringInjective` | server2.py:98-99 | different numbers have different decimal texts |
| `Common.ColonIndexOfJoin` | server2.py:98-99 | in `"slot:idx"`, the first colon sits right after the slot text |
| `Common.SplitAtColon` | server2.py:98-99 | two `"a:b"` texts whose left parts have no colon are equal only when both parts are equal |
| `Common.Ascending` | app.js:314 | the slot keys sorted numerically: strictly increasing, same members, same count |
| `ForkChoice.ForkChoice.constructor` | fork_choice.py:2-4 | no blocks, no votes |
| `ForkChoice.ForkChoice.AddBlock` | fork_choice.py:6-7 | the block is stored under its hash, replacing any earlier one; votes unchanged |
| `ForkChoice.ForkChoice.RegisterVote` | fork_choice.py:9-10 | the vote is appended to its block's list, which is created on first use (remembered in first-vote order); that block's count grows by one and every other block's list is unchanged |
| `ForkChoice.ForkChoice.GetHead` | fork_choice.py:13-17 | `None` exactly when no vote was registered; otherwise a voted block with the largest count, the first such block in insertion order |
| `SsfEngine.Engine.constructor` | ssf_engine.py:4-7 | keeps the roster, the fork choice and the threshold (0.67 by default) |
| `SsfEngine.Engine.ProposerRoundRobin` | ssf_engine.py:10 | the proposer is a roster member; slots `0..n-1` go to validators `0..n-1` in turn; the choice repeats every `n` slots |
| `SsfEngine.Engine.CollectVotes` | ssf_engine.py:14-19 | every vote a validator casts is registered for the block and returned, in roster order; the block's hash joins the first-vote order exactly when it gets its first vote; blocks untouched |
| `SsfEngine.Engine.Register` | ssf_engine.py:17-19 | one cast vote extends the registered lists and the first-vote order exactly as registering the longer list of cast votes would |
| `SsfEngine.OrderAfterListsVoted` | ssf_engine.py:14-19 | the first-vote order after a slot's votes extends the old one by at most the block's hash, which is added exactly when the hash had no list and some vote was cast; it stays free of repeats and lists exactly the voted hashes |
| `SsfEngine.Engine.RunSlot` | ssf_engine.py:9-29 | the new block is stored with the round-robin proposer; the cast votes are registered and the first-vote order moves on as `OrderAfterListsVoted` states; the result's quorum is cast votes over roster size; finalized exactly when the quorum reaches the threshold |
| `SsfEngine.CastFromRoster` | ssf_engine.py:14-19 | no more votes than validators, and each recorded vote is some validator's answer |
| `SsfEngine.CastCountsAnswers` | ssf_engine.py:14-19 | the number of votes is the number of validators that answered |
| `SsfEngine.ThresholdAsCount` | ssf_engine.py:21-22 | `cast / total >= 0.67` exactly when `100 * cast >= 67 * total` |
| `LegacyServer.NonFaultyMembers` | server.py:21-29 | an id is among the votes exactly when some non-faulty validator has it |
| `LegacyServer.NonFaultyOrdered` | server.py:21-29 | when every validator's id is its position, as at start-up and after any toggle, the votes are in increasing id order and are valid ids |
| `LegacyServer.ComputeFinalization` | server.py:31-32 | finalized exactly when at least 6 votes were collected |
| `LegacyServer.FloorQuorumBelowTwoThirds` | server.py:8-9 | 6 votes finalize and 5 do not, although 6 of 10 is below two thirds |
| `LegacyServer.IdOrder` | server.py:12 | the start-up roster: validators `0..n-1`, none faulty |
| `LegacyServer.FirstWithId` | server.py:92-95 | the position of the first validator with the requested id, or none when no validator has it |
| `LegacyServer.FirstWithIdAt` | server.py:92-95 | a validator with the id and none before it means the search stops there |
| `LegacyServer.ToggledEffect` | server.py:89-96 | only the first validator with the id changes, and only its faulty flag; ids are kept; toggling twice restores the roster |
| `LegacyServer.AppendBlock` | server.py:75-83 | a block for the next slot lands in an empty slot; it keeps "every slot is in range", "each slot's blocks carry its number" and "the finalized slot is the latest finalized one" |
| `LegacyServer.HeadAgreesWithFinalized` | server.py:40-50 | the head is the finalized slot when there is one, else the current slot as text |
| `LegacyServer.LegacySimulator.constructor` | server.py:8-14 | slot 0, nothing finalized (-1), empty chain, unset head, ten sound validators |
| `LegacyServer.LegacySimulator.SelectVotes` | server.py:21-29 | the ids of the non-faulty validators, in roster order |
| `LegacyServer.LegacySimulator.CreateBlock` | server.py:34-38 | the block has the slot and parent asked for, exactly the non-faulty ids as votes, and is finalized iff they are at least 6 |
| `LegacyServer.LegacySimulator.UpdateHead` | server.py:40-50 | the head is the slot of a finalized block in the highest such slot, or the current slot as text |
| `LegacyServer.LegacySimulator.AdvanceSlot` | server.py:66-84 | one slot later, one new block in the new slot; its parent is the drawn fork slot on a fork (draw below 0.2 after slot 1), else the previous slot; the finalized slot moves to the new slot iff the block is finalized |
| `LegacyServer.LegacySimulator.SimulateSlot` | server.py:66-86 | what `AdvanceSlot` states, the slot's block list returned, and the head updated to agree with the finalized slot |
| `LegacyServer.LegacySimulator.ToggleFault` | server.py:89-96 | the roster becomes its toggled version (see `ToggledEffect`) |
| `BlockTree.MakeBlockId` | server2.py:98-99 | the id's text is `"<slot>:<idx>"` and is never `"genesis"` |
| `BlockTree.IdTextInjective` | server2.py:98-99 | two block ids have the same text only when they are the same id |
| `BlockTree.IdTextHead` | server2.py:83 | an id's text starts with a digit exactly when it is not genesis |
| `BlockTree.AncestryShape` | server2.py:123-133 | the list starts at the block; each entry's parent is the next one, from an earlier slot; it stops at a missing or empty parent; it is empty iff the start is missing |
| `BlockTree.AncestryEndsAtGenesis` | server2.py:123-133 | in a well-formed tree, every stored block's ancestry ends at genesis |
| `BlockTree.SubtreeIsDescendants` | server2.py:135-148 | a block is in the subtree of a root exactly when the root is in the block's ancestry |
| `BlockTree.ChildrenInMembers` | server2.py:170 | the children listed are exactly the stored blocks whose parent is the block, in insertion order and without repeats |
| `BlockTree.WeightIsCount` | server2.py:176-182 | the weight is the number of validators whose latest message targets a block of the subtree |
| `BlockTree.WeightMonotone` | server2.py:176-182 | a larger set of blocks never weighs less, and no set weighs more than the roster |
| `BlockTree.MaxSlotOf` | server2.py:189-190 | the largest slot among the subtree's blocks |
| `BlockTree.BestOfIsMaximum` | server2.py:174-192 | no child beats the chosen one (higher weight, or equal weight and later subtree) |
| `BlockTree.BestOfIsFirst` | server2.py:174-192 | the chosen child strictly beats every child listed before it |
| `BlockTree.GhostHead` | server2.py:153-195 | the walk ends at a stored leaf that descends from where it started |
| `BlockTree.GhostStep` | server2.py:167-195 | from a block with children, the walk goes on at the best child, which is from a later slot |
| `BlockTree.StrBelowOrder` | server2.py:252 | Python string comparison is irreflexive, asymmetric and total on different strings |
| `BlockTree.LatestIsLatest` | server2.py:252 | the block chosen by `max(key=(slot, id))` has the highest slot, and among those the highest id |
| `BlockTree.LatestUnique` | server2.py:252 | only one block is latest in that order |
| `SsfServer.FreshValidators` | server2.py:46-55 | validators `0..n-1`, none faulty or slashed, no latest message |
| `SsfServer.InitialWorldValid` | server2.py:43-93 | the start-up globals satisfy the invariant; genesis is the only block, finalized, and is the head |
| `SsfServer.GenesisTreeValid` | server2.py:81-91 | `init_genesis`'s tree is valid; genesis is its only finalized block and has no child |
| `SsfServer.AddBlock` | server2.py:101-115 | the new block is `"slot:idx"` with idx the slot's block count, no votes, not finalized; stored and appended to its slot's list; nothing else changes |
| `SsfServer.FreshBlockId` | server2.py:103-104 | the id `add_block` makes is not yet in the chain |
| `SsfServer.AddBlockKeepsTree` | server2.py:101-115 | adding a block under a stored parent from an earlier slot keeps the tree invariant |
| `SsfServer.Ancestry` | server2.py:123-133 | the loop returns `AncestryOf` (see `BlockTree.AncestryShape`) |
| `SsfServer.SubtreeMembers` | server2.py:135-148 | the stack search returns exactly the subtree (see `BlockTree.SubtreeIsDescendants`) |
| `SsfServer.Children` | server2.py:170 | the comprehension returns `ChildrenIn` (see `BlockTree.ChildrenInMembers`) |
| `SsfServer.CountWeight` | server2.py:178-182 | the counting loop returns the weight (see `BlockTree.WeightIsCount`) |
| `SsfServer.MaxSlotIn` | server2.py:189-190 | the loop returns the subtree's largest slot |
| `SsfServer.BestChild` | server2.py:174-192 | the loop with its tie-breaker returns `BestOf` (see `BestOfIsMaximum`, `BestOfIsFirst`) |
| `SsfServer.LmdGhostHead` | server2.py:153-195 | the walk returns the GHOST head from genesis (see `BlockTree.GhostHead`) |
| `SsfServer.Eligible` | server2.py:209-211 | the validators allowed to vote are exactly the ones neither faulty nor slashed |
| `SsfServer.ScheduledVoters` | server2.py:209-230 | one event per eligible validator, in roster order, stamped with the origin slot |
| `SsfServer.ScheduledTargets` | server2.py:212-228 | each event is delivered 0 to `MAX_DELAY_SLOTS` slots after its origin and targets the new block or the head; with no delay, always the new block |
| `SsfServer.ScheduleVotesForBlock` | server2.py:200-230 | the queue grows by exactly the scheduled events; nothing else changes |
| `SsfServer.ScheduleAll` | server2.py:324-325 | the queue grows by the events scheduled for each new block in turn; nothing else changes |
| `SsfServer.ScheduledValid` | server2.py:225-230 | every scheduled event names a validator of the roster |
| `SsfServer.Due` | server2.py:240 | only events whose delivery slot has come |
| `SsfServer.Pending` | server2.py:241 | only events whose delivery slot is still to come |
| `SsfServer.DuePendingPartition` | server2.py:240-241 | the due and the pending events together are the queue, none lost or duplicated |
| `SsfServer.ApplyVotes` | server2.py:243-259 | applying due votes adds or removes no block, keeps the roster's size, and yields one applied pair per event |
| `SsfServer.DeliverKeeps` | server2.py:240-259 | delivering the due votes keeps the invariant with the pending events as the new queue, keeps the tree and every finalized flag, and only adds votes |
| `SsfServer.ApplyVotesApplied` | server2.py:243-259 | the k-th applied pair is the k-th due event's validator and its target, with a missing target replaced by the latest block |
| `SsfServer.ApplyVotesTally` | server2.py:256-258 | each block's voters grow by exactly the validators whose due vote lands on it |
| `SsfServer.ApplyVotesLatest` | server2.py:256 | a validator's latest message is its last due vote, stamped with the current slot |
| `SsfServer.ApplyVotesSilent` | server2.py:243-259 | a validator with no due vote is unchanged |
| `SsfServer.ApplyVotesKeeps` | server2.py:243-259 | applying votes changes no block's place in the tree and no finalized flag |
| `SsfServer.LatestKey` | server2.py:252 | the loop picks the block that is latest by (slot, id) |
| `SsfServer.ApplyEvents` | server2.py:243-259 | the delivery loop computes `ApplyVotes` |
| `SsfServer.ApplyDueVotes` | server2.py:232-260 | the queue keeps only pending events; the tree and roster become the result of applying the due ones; the applied pairs are returned |
| `SsfServer.Ceil` | server2.py:274 | `math.ceil`: the least integer not below the argument |
| `SsfServer.InitialQuorumIsThirteen` | server2.py:29-32 | with 19 validators and ratio 2/3, 13 votes are needed |
| `SsfServer.FinalizeEffect` | server2.py:265-279 | only that block may change, and only its flag; it ends up finalized iff it was or has reached the quorum; trying again changes nothing |
| `SsfServer.FinalizeCount` | server2.py:271-278 | the finalized count grows by one exactly when a not-yet-finalized block reaches the quorum |
| `SsfServer.TryFinalizeBlock` | server2.py:265-279 | returns true iff the block was not finalized and has the quorum; `total_finalizations` grows by one exactly then |
| `SsfServer.FinalizeSeqEffect` | server2.py:331-340 | after a pass over some ids, a block is finalized iff it was, or it was passed over and has the quorum |
| `SsfServer.SweepAll` | server2.py:337-340 | the pass over every listed block, after any earlier pass, finalizes exactly the blocks that were finalized or have the quorum |
| `SsfServer.FinalizeEach` | server2.py:331-334 | the loop performs the pass; `total_finalizations` grows by the number of newly finalized blocks |
| `SsfServer.FinalizeSweep` | server2.py:337-340 | the loop over `blocks_in_slot` does the same for every listed block |
| `SsfServer.FinalizeAll` | server2.py:330-340 | both passes together finalize exactly the blocks that were finalized or have the quorum; the tree is kept; the counter matches |
| `SsfServer.ProposeBlocks` | server2.py:309-320 | n blocks `"slot:0" .. "slot:n-1"` are added under the parent with the proposer |
| `SsfServer.NewIdsFresh` | server2.py:313-319 | the ids of the slot's new blocks are not yet in the chain |
| `SsfServer.AddAllEffect` | server2.py:313-319 | the new blocks are stored as proposed; every older block is kept |
| `SsfServer.AddAllKeepsFinalized` | server2.py:313-319 | new blocks are not finalized, so the finalized blocks stay the same |
| `SsfServer.ProposedKeepsTree` | server2.py:309-320 | proposing under a stored parent from an earlier slot keeps the tree invariant |
| `SsfServer.ProposeOnHead` | server2.py:305-320 | the parent is the GHOST head of the tree, a stored leaf; one block, or `num_forks` on an attack whose coin falls below the fork probability, stored under it at the current slot with the proposer and listed under the slot; all ids fresh; no finalized flag changes; nothing else changes |
| `SsfServer.ProposeAndSchedule` | server2.py:304-325 | the globals become `Proposed` of the old ones (see `ProposedTree`, `ProposedEffect`); the ids and the parent are returned |
| `SsfServer.ProposedTree` | server2.py:304-320 | the proposal keeps the invariant; the new ids are fresh; the parent is the head of the old tree and a leaf; the new tree is the old one plus the new blocks under it |
| `SsfServer.ProposedEffect` | server2.py:309-325 | the queue grows by the new blocks' votes, a delayed vote going to the head of the tree that holds the new blocks; `total_forks` grows by `num_forks - 1` on a fork attack and by 0 otherwise; roster, clock and settings are kept |
| `SsfServer.ProposedValid` | server2.py:304-325 | proposing on the head and queueing the votes keeps the invariant |
| `SsfServer.Proposed` | server2.py:304-325 | the proposal changes neither the clock nor the settings |
| `SsfServer.Delivered` | server2.py:232-260 | applying the due votes changes neither the clock, the settings nor the metrics |
| `SsfServer.Finalized` | server2.py:330-340 | the finalization passes change neither the clock, the settings nor `total_forks` |
| `SsfServer.BeginSlot` | server2.py:296-302 | the globals and pairs are `apply_due_votes` after the clock moved on: slot plus one, epoch plus one exactly at a multiple of 8, `total_slots_simulated` plus one; the invariant is kept; the tree and every finalized flag are kept and votes only grow; the new slot is empty |
| `SsfServer.BegunReady` | server2.py:296-302 | after the clock moves on and the due votes are applied, the globals are valid and the new slot has no block |
| `SsfServer.BegunTree` | server2.py:296-302 | moving the clock on and applying the due votes keeps the tree and its finalized flags and only adds votes |
| `SsfServer.DeliverAndFinalize` | server2.py:327-340 | the globals are `apply_due_votes` then both finalization passes; the invariant is kept; votes only grow; a block ends finalized iff it was or has the quorum; no due vote is left queued; clock, order and settings kept |
| `SsfServer.SettledTree` | server2.py:327-340 | delivering then finalizing keeps the tree, only adds votes, and finalizes exactly the blocks that were or have the quorum |
| `SsfServer.SettledValid` | server2.py:327-340 | delivering then finalizing keeps the invariant |
| `SsfServer.NewlyFinalized` | server2.py:330-340 | finalizing every block with a quorum keeps the tree and the finalized blocks; the finalized count grows by the newly finalized ones |
| `SsfServer.QueueAfterDelivery` | server2.py:232-260 | after the second delivery the queue is the old votes still pending, in order, then the new ones still pending; only new votes are due then |
| `SsfServer.FilterAppend` | server2.py:240-241 | the due and pending parts of a joined queue are the joined parts |
| `SsfServer.PendingStays` | server2.py:240-241 | delivering again at the same slot delivers nothing more |
| `SsfServer.ScheduledAllTargets` | server2.py:209-230 | every vote queued for the new blocks is stamped with the slot, due within `MAX_DELAY_SLOTS` slots, and for a new block or the head |
| `SsfServer.SimulateOneSlot` | server2.py:284-349 | the globals and the reply are the one-slot step `SlotStep`; `SlotStepMeaning` states what that step is |
| `SsfServer.SlotStepPhases` | server2.py:284-349 | the one-slot step is: clock moves on, first delivery, proposal and scheduling on valid globals, second delivery, both finalization passes; the reply is the new slot, the new ids and both deliveries' pairs in order |
| `SsfServer.SlotStepValid` | server2.py:284-349 | a slot keeps the invariant |
| `SsfServer.SlotStepClock` | server2.py:296-299 | a slot moves the clock and the slot counter on by one, reports the new slot and keeps the settings |
| `SsfServer.SlotStepEpoch` | server2.py:297-298 | a slot moves the epoch on exactly when the new slot is a multiple of 8 |
| `SsfServer.SlotStepCreated` | server2.py:309-320 | the reply lists `"slot:0" .. "slot:n-1"`, with n the number of blocks proposed |
| `SsfServer.SlotStepForks` | server2.py:316 | `total_forks` grows by one per block beyond the first |
| `SsfServer.SlotTreeMeaning` | server2.py:302-340 | over the slot, the new blocks hang off the head of the tree after the first delivery, which was a leaf; the older blocks are kept and only gain votes; a block ends finalized iff it was or has the quorum |
| `SsfServer.SlotTreePhases` | server2.py:302-340 | the same, over the globals the phases pass on |
| `SsfServer.TreeComposed` | server2.py:302-340 | what the steps do to the tree adds up to the tree part of the one-slot step |
| `SsfServer.VotesComposed` | server2.py:302-340 | across the phases a block's votes only grow, and it ends finalized iff it was or holds the quorum |
| `SsfServer.SlotQueueMeaning` | server2.py:302-328 | the queue after a slot is the earlier votes not yet due, in order, then this slot's votes not yet due; each new vote is stamped with the slot, due within `MAX_DELAY_SLOTS` and for a new block or the head of the new tree; the applied pairs are the first delivery's then the second's, one per vote due |
| `SsfServer.SlotQueuePhases` | server2.py:302-328 | the same, over the globals the phases pass on |
| `SsfServer.SlotRosterMeaning` | server2.py:243-259 | a slot keeps every validator's id and its faulty and slashed flags |
| `SsfServer.DeliveredFlags` | server2.py:243-259 | one delivery keeps every validator's id and flags |
| `SsfServer.SlotRoster` | server2.py:302-328 | the roster after a slot is the second delivery's, which starts from the first delivery's |
| `SsfServer.SlotStepMeaning` | server2.py:284-349 | every slot step does all that `SlotStepped` lists: clock, epoch and counters; the created ids; the tree; the queue; the applied pairs of both deliveries, in order, one per vote due; roster and settings; the invariant |
| `SsfServer.AttackRun` | server2.py:476-478 | k attack-mode slots keep the invariant, move the clock and slot counter on by k, keep the settings, and give k replies numbered consecutively from the next slot |
| `SsfServer.AttackRunStep` | server2.py:477-478 | one more attack slot is one more `SlotStep` on the globals, its reply appended |
| `SsfServer.AttackRunNext` | server2.py:477-478 | globals and replies of the attack loop after `k` slots, taken one `SlotStep` further, are the loop's after `k + 1`, on valid globals with the same delay bound |
| `SsfServer.SimulateAttack` | server2.py:468-479 | `max(count, 0)` slots are run and the reply's `ran` echoes the requested count, even a negative one; the globals and replies are those of `AttackRun`: invariant kept, clock and counter moved on by that many, replies numbered consecutively, settings kept |
| `SsfServer.ToggleFaultEffect` | server2.py:411-423 | a missing or out-of-range id is refused and changes nothing; otherwise only that validator's faulty flag flips, the reply shows it, and a second toggle undoes it |
| `SsfServer.ConfigureEffect` | server2.py:442-466 | each setting sent replaces the current one, the others are kept, nothing else changes; sending it twice is sending it once |
| `SsfServer.ResetEffect` | server2.py:484-496 | the globals start over with the settings kept; the result satisfies the invariant; resetting twice is resetting once |
| `SsfServer.Simulator.constructor` | server2.py:29-93 | the start-up globals with the default settings |
| `SsfServer.Simulator.SimulateSlot` | server2.py:400-409 | the globals take the one-slot step, which does all that `SlotStepped` lists; the invariant is kept |
| `SsfServer.Simulator.SimulateAttackSlots` | server2.py:468-479 | `max(count, 0)` attack slots run and `ran` is the requested count: the globals and replies are those of `AttackRun`, and the clock advances by that many |
| `SsfServer.Simulator.ToggleValidatorFault` | server2.py:411-423 | the globals and reply are those of `ToggleFault` |
| `SsfServer.Simulator.SetConfig` | server2.py:442-466 | the globals become `Configure` of the old ones |
| `SsfServer.Simulator.ResetState` | server2.py:484-496 | the globals become `Reset` of the old ones |
| `TreeView.MaxDepth` | app.js:318-322 | at least 1, and at least the block count of every slot, reached by one of them when above 1 |
| `TreeView.TallestStack` | app.js:318-322 | the loop computes `MaxDepth` |
| `TreeView.TopSlot` | app.js:327 | the largest slot key, or 10 when there is none |
| `TreeView.LayoutKeys` | app.js:333-344 | a block has a position exactly when some layout write placed it |
| `TreeView.CellsListed` | app.js:333-344 | the writes are exactly one per listed block, at its slot column and stack row |
| `TreeView.LayoutOfSnapshot` | app.js:311-344 | the laid-out blocks are exactly the listed ones; each sits at a cell of a slot that lists it; when no block is listed twice, at its own slot and row |
| `TreeView.NoSharedCell` | app.js:333-339 | distinct listed blocks get distinct positions; blocks of one slot share a column, stacked in list order; earlier slots are further left |
| `TreeView.LayoutFitsCanvas` | app.js:323-339 | every position lies strictly inside the canvas that `buildTreeLayout` sizes |
| `TreeView.SeededSpec` | app.js:341 | an existing animation node is kept; a new block gets `{x, 0, 0}` from its first placement |
| `TreeView.PlaceSlot` | app.js:335-342 | the inner loop adds one slot's writes to the layout and the animation nodes |
| `TreeView.PlaceSlots` | app.js:333-344 | the outer loop gives the layout and nodes of all the writes |
| `TreeView.Visualizer.constructor` | app.js:36-37 | empty layout, nodes, packets and flashes on a 1600 x 600 canvas |
| `TreeView.Visualizer.BuildTreeLayout` | app.js:311-344 | the layout is rebuilt from the snapshot, the nodes seeded, and the canvas sized to `max(600, 120 + 72 * depth)` by `max(1600, 120 + 140 * (top + 2))` |
| `TreeView.PacketKeyInjective` | app.js:352 | two pending votes with the same packet key `validator->block@deliver` are the same vote |
| `TreeView.NewPacket` | app.js:355-376 | the packet has the vote's key, starts at t = 0, lasts at least 40 frames and at least 30 per slot of delay, and ends at its block's position when that is laid out |
| `TreeView.EnqueueAppends` | app.js:351-377 | the pool only grows at the end, by at most one packet per vote, each made from one of the votes |
| `TreeView.EnqueueCovers` | app.js:351-377 | afterwards every pending vote has a packet with its key |
| `TreeView.EnqueueValid` | app.js:353 | keys stay unique and every packet stays unfinished |
| `TreeView.Visualizer.CreatePacketsFromPending` | app.js:347-378 | the pool becomes the enqueued one, its invariant kept |
| `TreeView.AdvancedMembers` | app.js:392-411 | after k frames the pool holds exactly the packets still in flight, each k frames further |
| `TreeView.FramesAdvance` | app.js:392-411 | k frames of the loop are the same as advancing every packet by k and dropping the finished ones |
| `TreeView.AdvancedValid` | app.js:392-411 | keys stay unique and no finished packet stays in the pool |
| `TreeView.PacketLifetime` | app.js:392-411 | a new packet is in the pool, k frames along, for its first frames-1 frames; it sparks on its last frame and is gone after |
| `TreeView.PacketGone` | app.js:407-411 | once its frames are spent a packet's key is no longer in the pool |
| `TreeView.SparksMembers` | app.js:407-409 | a packet that reaches its end leaves a flash at its end point |
| `TreeView.SurvivorsValid` | app.js:392-411 | one frame keeps keys unique and the pool unfinished |
| `TreeView.Visualizer.AnimatePackets` | app.js:392-411 | every packet steps one frame; finished ones leave the pool, in order, and each adds its flash |
| `TreeView.FlashCountdown` | app.js:447-458 | k renders age every flash by k and drop the spent ones; after each flash's life has passed, none remain |
| `TreeView.FadedOfAged` | app.js:456-457 | one more render is one more frame of ageing |
| `TreeView.AgedMembers` | app.js:447-458 | every remaining flash is an original one with k less life |
| `TreeView.AgedSpent` | app.js:457 | flashes whose life is spent are gone |
| `TreeView.SparksLit` | app.js:444-446 | every new flash has positive life (30) |
| `TreeView.FadedLit` | app.js:456-457 | a render leaves only flashes with life left |
| `TreeView.Visualizer.RenderFlashes` | app.js:447-458 | every flash ages by one frame; spent ones are removed |
| `TreeView.Visualizer.AnimationFrame` | app.js:390-411 | the flashes fade first (inside `renderBaseTree`), then packets move and add their flashes |
| `TreeView.Visualizer.HighlightParentChain` | app.js:591-605 | the edges run from the block up through its parents, each edge a stored parent link between laid-out blocks; no block repeats; the walk stops at a block with no parent, a missing block or an unplaced one |
| `TreeView.PathSlotsDescend` | app.js:591-605 | with parents from earlier slots, the walk's slots strictly decrease |
| `TreeView.WalkAcyclic` | app.js:591-605 | with parents from earlier slots the walk never comes back to a block it passed |
| `Sweep.FaultyCount` | app.js:266 | `Math.floor(total * frac)`: at most the total, the largest count not above `total * frac` |
| `Sweep.FaultTogglePlan` | app.js:265-278 | the ids toggled are exactly the validators whose flag differs from "faulty iff id < k", in increasing order |
| `Sweep.PlanAfterReset` | app.js:263-272 | after a reset the plan toggles exactly validators `0..k-1` |
| `Sweep.ApplyToggles` | app.js:267-278 | a sequence of `/toggle_fault` requests changes only the roster and keeps the invariant |
| `Sweep.ToggledFlags` | app.js:267-278 | toggling distinct ids flips exactly their faulty flags |
| `Sweep.ApplyFaultFraction` | app.js:260-283 | a reset world whose validators are faulty exactly below `floor(19 * frac)` |
| `Sweep.SweepFaultCounts` | app.js:623 | with 19 validators, the fractions 0.0..0.4 make 0, 1, 3, 5 and 7 validators faulty |
| `Sweep.ReportOfValid` | server2.py:425-440 | in a valid state, the finalized blocks are the finalizations counted plus genesis, at least 1 and at most the blocks |
| `Sweep.FractionFinalizedMeaning` | app.js:657 | the share of finalized blocks, in `[0, 1]` when no more are finalized than exist |
| `Sweep.AvgTimeToFinalityMeaning` | app.js:658 | missing exactly when nothing was finalized; otherwise simulated slots per finalization |
| `Sweep.ReorgRateUnguarded` | app.js:659 | as written, with no slot simulated the rate is not a finite number |
| `Sweep.ReorgRateMeaning` | app.js:659 | the corrected rate: forks per slot, 0 with no slot, never negative, equal to the rate as written whenever that is finite |
| `Sweep.ArmCellEffect` | app.js:639-649 | reset, configure and toggle leave a fresh valid world with the cell's delay and faults exactly below k |
| `Sweep.ArmCellForgets` | app.js:639-649 | arming a cell gives the same state whatever state it starts from |
| `Sweep.CellRun` | app.js:639-651 | the globals after a cell's 80 attack slots: valid, at slot 80, with the cell's settings |
| `Sweep.CellRecord` | app.js:652-660 | the record of a cell carries its fault and delay and is a valid record |
| `Sweep.RunCell` | app.js:638-660 | the new globals are `CellRun` of the cell and the record is `CellRecord` of that run, whatever state came before; the record has the cell's fault and delay and the `/metrics` reply after its 80 attack slots: 80 slots simulated, finalized blocks one more than finalizations and no more than blocks, and the three derived metrics, the reorg rate as written being finite there |
| `Sweep.Kept` | app.js:661-663 | the grid positions of the cells that succeeded, increasing |
| `Sweep.SweepCell` | app.js:638-663 | a cell whose requests succeed pushes `CellRecord` of its own run (with its own draws); a failed cell pushes nothing |
| `Sweep.PushKept` | app.js:660-663 | one push keeps the results' cells exactly the succeeded cells so far, in order, every record valid |
| `Sweep.RowPushedKept` | app.js:637-664 | after a row's pushes the results' cells are exactly the succeeded cells up to that row's end, in order, every record valid |
| `Sweep.SweepRow` | app.js:637-664 | after a row, the results are `SweepRecords` of one more row: each succeeded cell's `CellRecord`, in grid order |
| `Sweep.RunSweep` | app.js:621-668 | each kept record is `CellRecord` of its own cell's run (`SweepRecords` of the whole grid); the results' cells are exactly the succeeded cells, in grid order; each record valid |
| `Sweep.SweepPositionsIncrease` | app.js:636-665 | the results' cells increase |
| `Sweep.ByDelay` | app.js:678 | exactly the records with that delay |
| `Sweep.ByDelayOrdered` | app.js:678 | filtering keeps increasing cells increasing |
| `Sweep.SeriesSortedByFault` | app.js:678 | each delay's records are already strictly sorted by fault, so the sort changes nothing |
| `Sweep.AxisValues` | app.js:673-674 | the distinct values, sorted |
| `Sweep.ChartSeries` | app.js:681-699 | one series per delay, each the chart's value for that delay's records |
| `Sweep.ChartValuesOfRecord` | app.js:684-698 | every plotted value is non-negative; a missing average time is plotted as 0 |
| `Sweep.Present` | app.js:719 | exactly the non-null values |
| `Sweep.ValuesMembers` | app.js:717-723 | every non-null value of every series is scanned |
| `Sweep.Lowest` | app.js:720 | none for no values, otherwise a least value |
| `Sweep.Highest` | app.js:721 | none for no values, otherwise a greatest value |
| `Sweep.FoldData` | app.js:718-722 | the inner loop extends the running minimum and maximum |
| `Sweep.YRange` | app.js:715-725 | `[0, 1]` with no values; otherwise the least and the greatest value, with the top raised by 1 when they are equal |
| `Sweep.PlotYWithin` | app.js:765 | a value in range is plotted inside the plot, the top value at the top, the bottom value at the bottom |
| `Sweep.PointsInPlot` | app.js:762-765 | every point, a null one drawn at `ymin`, lies inside the plot |
| `Sweep.TicksMatchPlot` | app.js:745-747 | the i-th tick's label value is plotted at the tick's height |
| `Sweep.PlotXWithin` | app.js:737 | label positions stay inside the plot, from its left edge to its right edge |
| `Sweep.MisalignedPoint` | app.js:737-764 | as written, in a 4-point series whose second point is fault 0.2, that point is not drawn at the 0.20 label |
| `Sweep.IndexOf` | app.js:673 | the position of a fault among the axis values |
| `Sweep.PointXMeaning` | app.js:737-764 | the corrected point is drawn at its own fault's label, and agrees with the code as written when no cell failed |
| `Sweep.SeriesColour` | app.js:756-759 | every series gets a colour of the six-colour palette |
| `Sweep.ColoursDistinct` | app.js:756-759 | up to six consecutive series get pairwise different colours |

## Left out

- Drawing is not modelled. This covers the DOM, canvas painting and
  `fixHiDPI`, tooltips, the controls, the easing of packets, the motion and
  growth of `animNodes`, and block and packet colours (except the chart
  palette). The model keeps what decides the drawing: positions, the pool, the
  flashes, the highlighted edges and the chart coordinates.
- `buildTreeLayout` ends with a `fixHiDPI()` call (app.js:330). When
  `devicePixelRatio` is not 1, or the page's CSS fixes the canvas size, that
  call can replace the canvas width and height just set. The model leaves
  the call out. So `Visualizer.canvasWidth` and `Visualizer.canvasHeight` are
  the values from before that call, and so is `NewPacket`'s fallback end
  point `(canvasWidth - 100, 40)`.
- I/O is not modelled. `fetch`, status polling and Flask request parsing are
  left out. Each request the page sends is the matching `SsfServer` function
  applied to a `World`.
- The `/status` snapshot (server2.py:354-398) is an input to `TreeView`: the
  slot index, the chain view and the pending votes. `SsfServer` shows where
  they come from.
- Locks (`state_lock`, `lock`) and concurrent requests are not modelled.
  Every request is one atomic step.
- Randomness is not modelled as random. Each draw is a parameter, constrained
  to the source's range where the proof needs it. The network failures of the
  sweep are the parameter `fails`.
- `time.sleep` in `select_votes` has no effect on the model's state and is
  left out.
- Floats are modelled as exact reals. `round(quorum, 3)` in
  `ssf_engine.py:26`, `toFixed(2)` and JavaScript float rounding are not
  modelled.
- `block.py`, `validator.py` and `main.py` are not part of this model.
  - A block's hash is an input to `SsfEngine.Engine.RunSlot`.
  - A validator's `vote` is the function parameter `vote`.
- `avg_votes_per_block` of `/metrics` is not modelled, because the sweep
  never reads it.
- The `bid = "genesis"` fallback of `apply_due_votes` is not modelled. The
  chain always holds genesis, so it cannot be reached.
- The fork parent computed at server.py:73 is not modelled. It is never
  used.
- `SsfServer.FinalizeSweep` visits `blocks_in_slot` in ascending slot order.
  Python visits the slots in insertion order, which is the same here because
  slots are only ever added in increasing order.
- `SsfServer.ScheduleVotesForBlock` takes the head as the parameter `head`.
  `SsfServer.ProposeAndSchedule` computes it once per slot, after the new
  blocks are stored, and passes it for every new block. The source calls
  `lmd_ghost_head()` once per delayed vote (server2.py:224). Scheduling
  changes neither the tree nor any latest message, so every one of those
  calls returns that same head.
- `SsfServer.SimulateOneSlot`, `SsfServer.SimulateAttack`,
  `SsfServer.Simulator.SimulateSlot`, `SsfServer.Simulator.SimulateAttackSlots`
  and `Sweep.DrawsValid` (each cell's draws, through `Sweep.GridValid`) require every vote delay drawn to lie in
  `0..maxDelaySlots` (`DrawsFit`). `/config` accepts a negative
  `max_delay_slots` (server2.py:461). With it, `random.randint(0,
  MAX_DELAY_SLOTS)` (server2.py:212) raises `ValueError` when the first vote
  is scheduled. By then the slot has already moved on and the new blocks are
  stored. That failure path is not modelled.
- `api_simulate_attack`'s default of 5 slots is not modelled: `count` is
  always given. So is the "Run Attack (5 slots)" button.
- `SsfEngine.Engine.RunSlot` requires a non-empty roster. With an empty
  roster the source raises `ZeroDivisionError`.
- `TreeView.Visualizer.HighlightParentChain` adds a visited set. The source
  would loop forever on a parent cycle. `WalkAcyclic` proves that with
  parents from earlier slots, which `server2.py` guarantees, the extra check
  never fires.
- A failed sweep cell is modelled as changing nothing. In the source, a
  request that failed partway may already have reset or changed the server.
- The sort in `drawSweepCharts` (app.js:678) is not performed.
  `SeriesSortedByFault` proves it leaves each series as it is.
- `api_toggle_fault` with an id that is not an integer is modelled as a
  missing id.
- `GET /config`, `/status` serialization and the static-file routes are not
  modelled.

## Findings

| source | as written | input that shows it | evidently intended | confidence | as-written member | corrected member |
|---|---|---|---|---|---|---|
| app.js:659 | `(total_slots_simulated \|\| 1) ? total_forks / total_slots_simulated : 0`: the guard is never 0, so the division always runs | a `/metrics` reply with `total_slots_simulated == 0` gives `NaN` (or `Infinity` when forks were counted), not 0 | `total_slots_simulated ? total_forks / total_slots_simulated : 0` | not executed; the sweep itself always simulates 80 slots first, so there the bug is latent | `Sweep.ReorgRateAsWritten`, `Sweep.ReorgRateUnguarded` | `Sweep.ReorgRate`, `Sweep.ReorgRateMeaning` |
| app.js:764 | a point's x is its index within its own series, spread over that series' length, while the labels at app.js:737 are spread over all fault values | one failed cell leaves a delay series with faults 0.0, 0.2, 0.3, 0.4; its 0.2 point is drawn at 1/3 of the width, but the "0.20" label sits at 1/2 | place each point at the label of its own fault | not executed | `Sweep.PointXAsWritten`, `Sweep.MisalignedPoint` | `Sweep.PointX`, `Sweep.PointXMeaning` |
