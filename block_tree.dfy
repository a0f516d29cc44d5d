/** The block tree of `server2.py` as values: blocks keyed by id, several
    blocks per slot (`"slot:idx"` ids), parent links, and the walks the
    simulator makes over them. This module holds the specification side:
    ancestry, subtrees, children in dictionary order, subtree weights and
    the simplified LMD-GHOST head, each as a function, with the facts
    about them. The loops that compute them live in `SsfServer`. */
module BlockTree {
  import opened Common

  /** A block id. The program's ids are BlockIds: `"genesis"`, and
      `make_block_id(slot, idx)` for the `idx`-th block of a slot. The model
      keeps the two numbers; `IdText` gives the BlockId, one-to-one
      (`IdTextInjective`). */
  datatype BlockId = GenesisId | Minted(slot: nat, index: nat)

  /** A block dictionary. `parent` is None only for genesis; `proposer` is
      None only for genesis. */
  datatype Block = Block(id: BlockId, slot: nat, parent: Option<BlockId>, votesReceived: set<nat>,
                         finalized: bool, proposer: Option<nat>)

  /** A validator's `latest_message`: the slot of delivery and the block voted for. */
  datatype Message = Message(slot: nat, blockId: BlockId)

  datatype Validator = Validator(id: nat, faulty: bool, slashed: bool, latestMessage: Option<Message>)

  /** `chain`: block id to block. Its key order is kept separately (`order`). */
  type Chain = map<BlockId, Block>

  const Genesis: BlockId := GenesisId

  /** The block `init_genesis` stores: slot 0, no parent, already finalized. */
  const GenesisBlock: Block := Block(Genesis, 0, None, {}, true, None)

  /** The id as the program writes it. */
  function IdText(id: BlockId): (t: string)
    ensures t != []
  {
    match id
    case GenesisId => "genesis"
    case Minted(slot, idx) => NatToString(slot) + ":" + NatToString(idx)
  }

  /** `make_block_id`: the slot and the index within the slot, joined by a
      colon; never the genesis id. */
  function MakeBlockId(slot: nat, idx: nat): (id: BlockId)
    ensures id != Genesis && IdText(id) == NatToString(slot) + ":" + NatToString(idx)
  {
    Minted(slot, idx)
  }

  /** Distinct ids are distinct BlockIds, so the program's BlockId keys name
      blocks one-to-one. */
  lemma IdTextInjective(a: BlockId, b: BlockId)
    ensures IdText(a) == IdText(b) <==> a == b
  {
    if IdText(a) == IdText(b) {
      IdTextHead(a);
      IdTextHead(b);
      if a.Minted? {
        var x, y, x', y' := NatToString(a.slot), NatToString(a.index), NatToString(b.slot), NatToString(b.index);
        assert forall k :: 0 <= k < |x| ==> x[k] != ':' by {
          forall k | 0 <= k < |x| ensures x[k] != ':' { assert IsDigit(x[k]); }
        }
        assert forall k :: 0 <= k < |x'| ==> x'[k] != ':' by {
          forall k | 0 <= k < |x'| ensures x'[k] != ':' { assert IsDigit(x'[k]); }
        }
        SplitAtColon(x, y, x', y');
        NatToStringInjective(a.slot, b.slot);
        NatToStringInjective(a.index, b.index);
      }
    }
  }

  /** Only the genesis id starts with a letter. */
  lemma IdTextHead(a: BlockId)
    ensures IsDigit(IdText(a)[0]) <==> a.Minted?
  {
    if a.Minted? {
      assert IdText(a)[0] == NatToString(a.slot)[0];
    }
  }

  /** Python truthiness of a block id held in a variable: no id is the
      empty BlockId, so only None is falsy. */
  predicate Truthy(cur: Option<BlockId>) {
    cur.Some?
  }

  predicate ParentOlder(chain: Chain, id: BlockId)
    requires id in chain
  {
    var p := chain[id].parent;
    p.Some? && p.value in chain ==> chain[p.value].slot < chain[id].slot
  }

  /** What makes every walk along parent links finite. */
  ghost predicate ParentsOlder(chain: Chain) {
    forall id {:trigger ParentOlder(chain, id)} :: id in chain ==> ParentOlder(chain, id)
  }

  /** A non-genesis block whose parent is stored, in an earlier slot. */
  predicate HasOlderParent(chain: Chain, id: BlockId)
    requires id in chain
  {
    var p := chain[id].parent;
    p.Some? && p.value in chain && chain[p.value].slot < chain[id].slot
  }

  /** The tree `server2.py` keeps: genesis at slot 0 without a parent, blocks
      stored under their own id, and every other block hanging
      from a stored block of an earlier slot. */
  ghost predicate WellFormed(chain: Chain) {
    && Genesis in chain && chain[Genesis].slot == 0 && chain[Genesis].parent == None
    && (forall id :: id in chain ==> chain[id].id == id)
    && (forall id {:trigger HasOlderParent(chain, id)} :: id in chain && id != Genesis ==> HasOlderParent(chain, id))
    && ParentsOlder(chain)
  }

  /** `ancestry(block_id)`: the ids met by following parent links from `cur`
      while the id is truthy and stored. */
  function AncestryOf(chain: Chain, cur: Option<BlockId>): seq<BlockId>
    requires ParentsOlder(chain)
    decreases if cur.Some? && cur.value in chain then chain[cur.value].slot + 1 else 0
  {
    if !Truthy(cur) || cur.value !in chain then []
    else
      assert ParentOlder(chain, cur.value);
      [cur.value] + AncestryOf(chain, chain[cur.value].parent)
  }

  /** The list starts at the given id, each next element is the parent of the
      one before, in a strictly earlier slot, every element is stored, and
      the walk ends where the last parent is null, empty or not stored. */
  lemma {:induction false} AncestryShape(chain: Chain, cur: Option<BlockId>)
    requires ParentsOlder(chain)
    ensures var r := AncestryOf(chain, cur);
      && (|r| > 0 <==> Truthy(cur) && cur.value in chain)
      && (|r| > 0 ==> r[0] == cur.value)
      && (forall k :: 0 <= k < |r| ==> r[k] in chain)
      && (forall k :: 0 <= k < |r| - 1 ==> chain[r[k]].parent == Some(r[k + 1]) && chain[r[k + 1]].slot < chain[r[k]].slot)
      && (|r| > 0 ==> var p := chain[r[|r| - 1]].parent; !Truthy(p) || p.value !in chain)
    decreases if cur.Some? && cur.value in chain then chain[cur.value].slot + 1 else 0
  {
    if Truthy(cur) && cur.value in chain {
      assert ParentOlder(chain, cur.value);
      AncestryShape(chain, chain[cur.value].parent);
    }
  }

  /** In a well-formed tree the ancestry of any stored block ends at genesis. */
  lemma {:induction false} AncestryEndsAtGenesis(chain: Chain, id: BlockId)
    requires WellFormed(chain) && id in chain
    ensures var r := AncestryOf(chain, Some(id)); |r| > 0 && r[|r| - 1] == Genesis
    decreases chain[id].slot
  {
    if id != Genesis {
      assert HasOlderParent(chain, id);
      AncestryEndsAtGenesis(chain, chain[id].parent.value);
    }
  }

  /** `id` lies at or below `root`: following stored parent links from `id`
      meets `root`. */
  ghost predicate Reaches(chain: Chain, id: BlockId, root: BlockId)
    requires ParentsOlder(chain)
    decreases if id in chain then chain[id].slot + 1 else 0
  {
    id == root ||
    (id in chain && chain[id].parent.Some? &&
      assert ParentOlder(chain, id); Reaches(chain, chain[id].parent.value, root))
  }

  /** What `subtree_members(root)` collects: the root and every stored block
      below it. */
  ghost function Subtree(chain: Chain, root: BlockId): set<BlockId>
    requires ParentsOlder(chain)
  {
    {root} + set id | id in chain && Reaches(chain, id, root)
  }

  /** For stored blocks, membership in the subtree of `root` is having
      `root` on one's ancestry. */
  lemma {:induction false} SubtreeIsDescendants(chain: Chain, root: BlockId, id: BlockId)
    requires ParentsOlder(chain)
    requires root in chain && id in chain
    ensures id in Subtree(chain, root) <==> root in AncestryOf(chain, Some(id))
    decreases chain[id].slot
  {
    assert ParentOlder(chain, id);
    var p := chain[id].parent;
    assert id in Subtree(chain, root) <==> Reaches(chain, id, root);
    assert AncestryOf(chain, Some(id)) == [id] + AncestryOf(chain, p);
    if id != root && p.Some? && p.value in chain {
      SubtreeIsDescendants(chain, root, p.value);
      assert p.value in Subtree(chain, root) <==> Reaches(chain, p.value, root);
      assert Reaches(chain, id, root) <==> Reaches(chain, p.value, root);
      assert root in AncestryOf(chain, p) <==> root in AncestryOf(chain, Some(p.value));
    } else if id != root {
      assert AncestryOf(chain, p) == [];
      assert !Reaches(chain, id, root);
    }
  }

  /** The ids of the blocks whose parent is `x`, in the order of `os` (the
      dictionary order of `chain`): `[b["id"] for b in chain.values() if b["parent"] == x]`. */
  function ChildrenIn(chain: Chain, os: seq<BlockId>, x: BlockId): seq<BlockId>
  {
    if os == [] then []
    else
      var last := os[|os| - 1];
      ChildrenIn(chain, os[..|os| - 1], x) + (if last in chain && chain[last].parent == Some(x) then [chain[last].id] else [])
  }

  /** With blocks stored under their own ids, the children listed are exactly
      the stored blocks of `os` whose parent is `x`, each once when `os` has
      no repeats, and in the order of `os`. */
  lemma {:induction false} ChildrenInMembers(chain: Chain, os: seq<BlockId>, x: BlockId)
    requires forall id :: id in chain ==> chain[id].id == id
    ensures forall c :: c in ChildrenIn(chain, os, x) <==> c in os && c in chain && chain[c].parent == Some(x)
    ensures (forall i, j :: 0 <= i < j < |os| ==> os[i] != os[j]) ==>
              forall i, j :: 0 <= i < j < |ChildrenIn(chain, os, x)| ==> ChildrenIn(chain, os, x)[i] != ChildrenIn(chain, os, x)[j]
  {
    if os != [] {
      ChildrenInMembers(chain, os[..|os| - 1], x);
    }
  }

  /** Following parent links composes. */
  lemma {:induction false} ReachesTransitive(chain: Chain, x: BlockId, y: BlockId, z: BlockId)
    requires ParentsOlder(chain)
    requires Reaches(chain, x, y) && Reaches(chain, y, z)
    ensures Reaches(chain, x, z)
    decreases if x in chain then chain[x].slot + 1 else 0
  {
    if x != y {
      assert ParentOlder(chain, x);
      ReachesTransitive(chain, chain[x].parent.value, y, z);
    }
  }

  /** What the stack walk of `subtree_members(root)` keeps: everything
      collected or still stacked lies in the subtree, the root is one of
      them, and every child of a collected block is collected or stacked. */
  ghost predicate DfsInv(chain: Chain, root: BlockId, out: set<BlockId>, stack: seq<BlockId>)
    requires ParentsOlder(chain)
  {
    && out <= Subtree(chain, root)
    && (forall k :: 0 <= k < |stack| ==> stack[k] in Subtree(chain, root))
    && (root in out || root in stack)
    && (forall x, c :: x in out && c in chain && chain[c].parent == Some(x) ==> c in out || c in stack)
  }

  /** Popping an id that is already collected keeps the walk's invariant. */
  lemma DfsSkip(chain: Chain, root: BlockId, out: set<BlockId>, stack: seq<BlockId>, x: BlockId)
    requires ParentsOlder(chain)
    requires DfsInv(chain, root, out, stack + [x]) && x in out
    ensures DfsInv(chain, root, out, stack)
  {
    var s := stack + [x];
    assert forall k :: 0 <= k < |stack| ==> stack[k] == s[k];
    forall y, c | y in out && c in chain && chain[c].parent == Some(y) && c !in out
      ensures c in stack
    {
      assert c in s;
    }
  }

  /** Collecting a popped id and stacking its children keeps the walk's
      invariant; the popped id lies in the subtree, so the walk's measure
      `|Subtree - out|` shrinks. */
  lemma DfsPush(chain: Chain, order: seq<BlockId>, root: BlockId, out: set<BlockId>, stack: seq<BlockId>, x: BlockId)
    requires ParentsOlder(chain) && forall id :: id in chain ==> chain[id].id == id && id in order
    requires DfsInv(chain, root, out, stack + [x]) && x !in out
    ensures x in Subtree(chain, root)
    ensures DfsInv(chain, root, out + {x}, stack + ChildrenIn(chain, order, x))
  {
    var s := stack + [x];
    assert s[|stack|] == x;
    var cs := ChildrenIn(chain, order, x);
    ChildrenInMembers(chain, order, x);
    var all := Subtree(chain, root);
    var stack' := stack + cs;
    forall k | 0 <= k < |stack'| ensures stack'[k] in all {
      if k < |stack| {
        assert stack[k] == s[k];
      } else {
        var c := cs[k - |stack|];
        assert Reaches(chain, x, root);
        assert Reaches(chain, c, root);
      }
    }
    assert root in out + {x} || root in stack' by {
      if root !in out && root != x {
        assert root in s;
        var k :| 0 <= k < |s| && s[k] == root;
        assert stack[k] == root;
      }
    }
    forall y, c | y in out + {x} && c in chain && chain[c].parent == Some(y) && c !in out + {x}
      ensures c in stack'
    {
      if y != x {
        assert c in s;
        var k :| 0 <= k < |s| && s[k] == c;
        assert stack'[k] == c;
      } else {
        assert c in cs;
        var k :| 0 <= k < |cs| && cs[k] == c;
        assert stack'[|stack| + k] == c;
      }
    }
  }

  /** With nothing left on the stack, the walk has collected exactly the subtree. */
  lemma DfsDone(chain: Chain, root: BlockId, out: set<BlockId>)
    requires ParentsOlder(chain) && DfsInv(chain, root, out, [])
    ensures out == Subtree(chain, root)
  {
    ClosedContainsSubtree(chain, root, out);
  }

  /** A set holding `root` and closed under "child of" holds the subtree. */
  lemma ClosedContainsSubtree(chain: Chain, root: BlockId, out: set<BlockId>)
    requires ParentsOlder(chain)
    requires root in out
    requires forall x, c :: x in out && c in chain && chain[c].parent == Some(x) ==> c in out
    ensures Subtree(chain, root) <= out
  {
    forall id | id in Subtree(chain, root) ensures id in out {
      if id != root {
        ReachesInto(chain, root, out, id);
      }
    }
  }

  lemma {:induction false} ReachesInto(chain: Chain, root: BlockId, out: set<BlockId>, id: BlockId)
    requires ParentsOlder(chain)
    requires root in out
    requires forall x, c :: x in out && c in chain && chain[c].parent == Some(x) ==> c in out
    requires Reaches(chain, id, root)
    ensures id in out
    decreases if id in chain then chain[id].slot + 1 else 0
  {
    if id != root {
      assert ParentOlder(chain, id);
      ReachesInto(chain, root, out, chain[id].parent.value);
    }
  }

  /** Whether `v`'s latest message points into `s` (`msg and msg["block_id"] in s`). */
  predicate CountsFor(v: Validator, s: set<BlockId>) {
    v.latestMessage.Some? && v.latestMessage.value.blockId in s
  }

  /** The weight of a set of blocks: how many validators' latest messages
      point into it, counted over the roster. */
  function Weight(vs: seq<Validator>, s: set<BlockId>): nat
  {
    if vs == [] then 0
    else Weight(vs[..|vs| - 1], s) + (if CountsFor(vs[|vs| - 1], s) then 1 else 0)
  }

  /** The weight is the number of validators whose latest message lies in `s`. */
  lemma {:induction false} WeightIsCount(vs: seq<Validator>, s: set<BlockId>)
    ensures Weight(vs, s) == |set i | 0 <= i < |vs| && CountsFor(vs[i], s)|
  {
    if vs != [] {
      var n := |vs| - 1;
      WeightIsCount(vs[..n], s);
      var all := set i | 0 <= i < |vs| && CountsFor(vs[i], s);
      var before := set i | 0 <= i < n && CountsFor(vs[..n][i], s);
      if CountsFor(vs[n], s) {
        assert all == before + {n};
      } else {
        assert all == before;
      }
    }
  }

  /** A larger set of blocks weighs at least as much, and no set weighs more
      than the roster has validators. */
  lemma {:induction false} WeightMonotone(vs: seq<Validator>, s: set<BlockId>, t: set<BlockId>)
    requires s <= t
    ensures Weight(vs, s) <= Weight(vs, t) <= |vs|
  {
    if vs != [] {
      WeightMonotone(vs[..|vs| - 1], s, t);
    }
  }

  /** The slots of the stored blocks of `s`. */
  ghost function SlotsIn(chain: Chain, s: set<BlockId>): set<int>
  {
    set x | x in s && x in chain :: chain[x].slot as int
  }

  /** `max([chain[x]["slot"] for x in s])`. */
  ghost function MaxSlotOf(chain: Chain, s: set<BlockId>): (m: int)
    requires exists x :: x in s && x in chain
    ensures m in SlotsIn(chain, s) && forall k :: k in SlotsIn(chain, s) ==> k <= m
  {
    var slots := SlotsIn(chain, s);
    var x :| x in s && x in chain;
    assert chain[x].slot as int in slots;
    MaxExists(slots);
    var m :| m in slots && forall k :: k in slots ==> k <= m;
    m
  }

  /** `(w, m)` is lexicographically above `(w', m')`. */
  predicate LexAbove(w: int, m: int, w': int, m': int) {
    w > w' || (w == w' && m > m')
  }

  /** The rule by which `lmd_ghost_head` replaces its best child `b` with a
      later child `c`: `c`'s subtree weighs more, or weighs the same and
      reaches a strictly later slot. */
  ghost predicate Beats(chain: Chain, vs: seq<Validator>, c: BlockId, b: BlockId)
    requires ParentsOlder(chain) && c in chain && b in chain
  {
    LexAbove(SubtreeWeight(chain, vs, c), SubtreeMaxSlot(chain, c),
             SubtreeWeight(chain, vs, b), SubtreeMaxSlot(chain, b))
  }

  /** `weight` as the inner loop of `lmd_ghost_head` computes it for child `c`. */
  ghost function SubtreeWeight(chain: Chain, vs: seq<Validator>, c: BlockId): nat
    requires ParentsOlder(chain)
  {
    Weight(vs, Subtree(chain, c))
  }

  /** The latest slot in the subtree of the stored block `c`. */
  ghost function SubtreeMaxSlot(chain: Chain, c: BlockId): int
    requires ParentsOlder(chain) && c in chain
  {
    assert c in Subtree(chain, c);
    MaxSlotOf(chain, Subtree(chain, c))
  }

  /** The child the inner loop of `lmd_ghost_head` settles on: the first child
      is taken, then each later one replaces it when it beats it. */
  ghost function BestOf(chain: Chain, vs: seq<Validator>, cs: seq<BlockId>): (best: BlockId)
    requires ParentsOlder(chain) && cs != []
    requires forall i :: 0 <= i < |cs| ==> cs[i] in chain
    ensures best in cs
  {
    if |cs| == 1 then cs[0]
    else
      var b := BestOf(chain, vs, cs[..|cs| - 1]);
      var c := cs[|cs| - 1];
      if Beats(chain, vs, c, b) then c else b
  }

  /** Lexicographic order facts used on (weight, max slot) pairs. */
  lemma LexAboveOrder(w1: int, m1: int, w2: int, m2: int, w3: int, m3: int)
    ensures !LexAbove(w1, m1, w1, m1)
    ensures LexAbove(w1, m1, w2, m2) && !LexAbove(w3, m3, w2, m2) ==> LexAbove(w1, m1, w3, m3)
    ensures LexAbove(w1, m1, w2, m2) ==> !LexAbove(w2, m2, w1, m1)
  {
  }

  /** No child beats the chosen one: it is a lexicographic maximum of
      (subtree weight, subtree max slot) among the children. */
  lemma {:induction false} BestOfIsMaximum(chain: Chain, vs: seq<Validator>, cs: seq<BlockId>)
    requires ParentsOlder(chain) && cs != []
    requires forall i :: 0 <= i < |cs| ==> cs[i] in chain
    ensures forall k :: 0 <= k < |cs| ==> !Beats(chain, vs, cs[k], BestOf(chain, vs, cs))
  {
    var best := BestOf(chain, vs, cs);
    if |cs| > 1 {
      var n := |cs| - 1;
      var init := cs[..n];
      BestOfIsMaximum(chain, vs, init);
      var b := BestOf(chain, vs, init);
      forall k | 0 <= k < |cs| ensures !Beats(chain, vs, cs[k], best) {
        var x := cs[k];
        LexAboveOrder(SubtreeWeight(chain, vs, best), SubtreeMaxSlot(chain, best),
                      SubtreeWeight(chain, vs, b), SubtreeMaxSlot(chain, b),
                      SubtreeWeight(chain, vs, x), SubtreeMaxSlot(chain, x));
        if k < n {
          assert x == init[k];
          assert !Beats(chain, vs, x, b);
        }
      }
    }
  }

  /** The chosen child is the first child with the maximal pair: every child
      listed before it is strictly beaten by it. */
  lemma {:induction false} BestOfIsFirst(chain: Chain, vs: seq<Validator>, cs: seq<BlockId>)
    requires ParentsOlder(chain) && cs != []
    requires forall i :: 0 <= i < |cs| ==> cs[i] in chain
    ensures exists j :: 0 <= j < |cs| && cs[j] == BestOf(chain, vs, cs) &&
              forall k :: 0 <= k < j ==> Beats(chain, vs, BestOf(chain, vs, cs), cs[k])
  {
    var best := BestOf(chain, vs, cs);
    if |cs| == 1 {
      assert cs[0] == best;
    } else {
      var n := |cs| - 1;
      var init := cs[..n];
      assert forall k :: 0 <= k < n ==> init[k] == cs[k];
      BestOfIsFirst(chain, vs, init);
      var b := BestOf(chain, vs, init);
      var j :| 0 <= j < n && init[j] == b && forall k :: 0 <= k < j ==> Beats(chain, vs, b, init[k]);
      if best == cs[n] && best != b {
        forall k | 0 <= k < n ensures Beats(chain, vs, best, cs[k]) {
          var x := cs[k];
          assert !Beats(chain, vs, x, b) by {
            BestOfIsMaximum(chain, vs, init);
            assert x == init[k];
          }
          LexAboveOrder(SubtreeWeight(chain, vs, best), SubtreeMaxSlot(chain, best),
                        SubtreeWeight(chain, vs, b), SubtreeMaxSlot(chain, b),
                        SubtreeWeight(chain, vs, x), SubtreeMaxSlot(chain, x));
        }
        assert cs[n] == best;
      } else {
        assert best == b;
        assert cs[j] == best;
      }
    }
  }

  /** The stored blocks in slots after `s`. */
  ghost function Later(chain: Chain, s: int): set<BlockId>
  {
    set id | id in chain && chain[id].slot > s
  }

  lemma LaterShrinks(chain: Chain, a: BlockId, b: BlockId)
    requires a in chain && b in chain && chain[a].slot < chain[b].slot
    ensures |Later(chain, chain[b].slot)| < |Later(chain, chain[a].slot)|
  {
    var big, small := Later(chain, chain[a].slot), Later(chain, chain[b].slot);
    assert small + {b} <= big;
    assert b !in small;
    assert |small + {b}| == |small| + 1;
    assert big == (small + {b}) + (big - (small + {b}));
  }

  /** The simplified LMD-GHOST walk of `lmd_ghost_head`, from `cur`: stop at a
      block without children, else descend into the best child. The result
      is a stored childless block at or below `cur`. */
  ghost function GhostHead(chain: Chain, order: seq<BlockId>, vs: seq<Validator>, cur: BlockId): (head: BlockId)
    requires WellFormed(chain) && cur in chain
    ensures head in chain && ChildrenIn(chain, order, head) == [] && Reaches(chain, head, cur)
    decreases |Later(chain, chain[cur].slot)|
  {
    var cs := ChildrenIn(chain, order, cur);
    if cs == [] then cur
    else
      ChildrenInMembers(chain, order, cur);
      assert forall i :: 0 <= i < |cs| ==> cs[i] in chain && chain[cs[i]].parent == Some(cur);
      var b := BestOf(chain, vs, cs);
      assert HasOlderParent(chain, b);
      LaterShrinks(chain, cur, b);
      var head := GhostHead(chain, order, vs, b);
      assert Reaches(chain, b, cur);
      ReachesTransitive(chain, head, b, cur);
      head
  }

  /** One step of the descent: the best child of a block with children is
      a stored block that is later than it, and the descent from it ends
      where the descent from its parent does. */
  lemma GhostStep(chain: Chain, order: seq<BlockId>, vs: seq<Validator>, cur: BlockId)
    requires WellFormed(chain) && cur in chain && ChildrenIn(chain, order, cur) != []
    ensures forall i :: 0 <= i < |ChildrenIn(chain, order, cur)| ==> ChildrenIn(chain, order, cur)[i] in chain
    ensures var b := BestOf(chain, vs, ChildrenIn(chain, order, cur));
      && b in chain && |Later(chain, chain[b].slot)| < |Later(chain, chain[cur].slot)|
      && GhostHead(chain, order, vs, b) == GhostHead(chain, order, vs, cur)
  {
    var cs := ChildrenIn(chain, order, cur);
    ChildrenInMembers(chain, order, cur);
    assert forall i :: 0 <= i < |cs| ==> cs[i] in chain && chain[cs[i]].parent == Some(cur);
    var b := BestOf(chain, vs, cs);
    assert HasOlderParent(chain, b);
    LaterShrinks(chain, cur, b);
  }

  /** Python's `<` on strings: character by character, a proper prefix first. */
  predicate StrBelow(a: string, b: string)
  {
    if a == [] then b != []
    else if b == [] then false
    else if a[0] != b[0] then a[0] < b[0]
    else StrBelow(a[1..], b[1..])
  }

  /** String order is a strict total order. */
  lemma {:induction false} StrBelowOrder(a: string, b: string)
    ensures !StrBelow(a, a)
    ensures StrBelow(a, b) ==> !StrBelow(b, a)
    ensures a != b ==> StrBelow(a, b) || StrBelow(b, a)
  {
    if a != [] {
      StrBelowOrder(a[1..], a[1..]);
      if b != [] && a[0] == b[0] {
        StrBelowOrder(a[1..], b[1..]);
        assert a == [a[0]] + a[1..] && b == [b[0]] + b[1..];
      }
    }
  }

  lemma {:induction false} StrBelowTransitive(a: string, b: string, c: string)
    requires StrBelow(a, b) && StrBelow(b, c)
    ensures StrBelow(a, c)
  {
    if a != [] && a[0] == b[0] && b[0] == c[0] {
      StrBelowTransitive(a[1..], b[1..], c[1..]);
    }
  }

  /** The order of `max(chain.keys(), key=lambda k: (chain[k]["slot"], k))`:
      by slot, then by id. */
  predicate KeyBelow(chain: Chain, a: BlockId, b: BlockId)
    requires a in chain && b in chain
  {
    chain[a].slot < chain[b].slot || (chain[a].slot == chain[b].slot && StrBelow(IdText(a), IdText(b)))
  }

  /** `k` is the stored block that is greatest by (slot, id). */
  ghost predicate IsLatest(chain: Chain, k: BlockId) {
    k in chain && forall x {:trigger KeyBelow(chain, x, k)} :: x in chain && x != k ==> KeyBelow(chain, x, k)
  }

  /** Some key of a non-empty subset of the chain is greatest by (slot, id). */
  lemma {:induction false} LatestInExists(chain: Chain, keys: set<BlockId>)
    requires keys != {} && keys <= chain.Keys
    ensures exists k :: k in keys && forall x {:trigger KeyBelow(chain, x, k)} :: x in keys && x != k ==> KeyBelow(chain, x, k)
    decreases |keys|
  {
    assert (forall z :: z !in keys) ==> keys == {};
    var y :| y in keys;
    var rest := keys - {y};
    assert keys == rest + {y};
    if rest != {} {
      LatestInExists(chain, rest);
      var k :| k in rest && forall x {:trigger KeyBelow(chain, x, k)} :: x in rest && x != k ==> KeyBelow(chain, x, k);
      LatestStep(chain, rest, k, y);
      var w := if KeyBelow(chain, k, y) then y else k;
      assert w in keys && forall x {:trigger KeyBelow(chain, x, w)} :: x in keys && x != w ==> KeyBelow(chain, x, w);
    } else {
      assert forall x :: x in keys ==> x == y;
    }
  }

  /** Adding `y` to a set whose greatest key is `k`: the greater of `k` and
      `y` is greatest in the larger set. */
  lemma LatestStep(chain: Chain, rest: set<BlockId>, k: BlockId, y: BlockId)
    requires rest <= chain.Keys && y in chain && k in rest
    requires forall x {:trigger KeyBelow(chain, x, k)} :: x in rest && x != k ==> KeyBelow(chain, x, k)
    ensures var w := if KeyBelow(chain, k, y) then y else k;
      forall x {:trigger KeyBelow(chain, x, w)} :: x in rest + {y} && x != w ==> KeyBelow(chain, x, w)
  {
    StrBelowOrder(IdText(y), IdText(k));
    IdTextInjective(y, k);
    if KeyBelow(chain, k, y) {
      forall x | x in rest + {y} && x != y ensures KeyBelow(chain, x, y) {
        if x != k {
          assert KeyBelow(chain, x, k);
          if chain[x].slot == chain[k].slot == chain[y].slot {
            StrBelowTransitive(IdText(x), IdText(k), IdText(y));
          }
        }
      }
    }
  }

  /** The fallback target of `apply_due_votes`: the stored block greatest by
      (slot, id) (`LatestIsLatest`). */
  ghost function Latest(chain: Chain): (k: BlockId)
    requires chain != map[]
    ensures k in chain
  {
    assert (forall z :: z !in chain.Keys) ==> chain.Keys == {};
    LatestInExists(chain, chain.Keys);
    var k :| k in chain && forall x {:trigger KeyBelow(chain, x, k)} :: x in chain && x != k ==> KeyBelow(chain, x, k);
    k
  }

  /** `Latest` is greater by (slot, id) than every other stored block. */
  lemma LatestIsLatest(chain: Chain)
    requires chain != map[]
    ensures IsLatest(chain, Latest(chain))
  {
  }

  /** At most one block is greatest, so the fallback is well defined. */
  lemma LatestUnique(chain: Chain, a: BlockId, b: BlockId)
    requires IsLatest(chain, a) && IsLatest(chain, b)
    ensures a == b
  {
    if a != b {
      assert KeyBelow(chain, a, b) && KeyBelow(chain, b, a);
      StrBelowOrder(IdText(a), IdText(b));
    }
  }
}
