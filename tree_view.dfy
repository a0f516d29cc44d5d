/** The drawing-independent part of the visualizer `app.js`: the fork-aware
    layout of the block tree, the pool of vote packets in flight, the flashes
    they leave on arrival, and the walk up a block's parent chain. Canvas
    drawing is not modelled; what is drawn is decided by the state here. */
module TreeView {
  import opened Common

  // The layout grid of `buildTreeLayout`.
  const XStart := 120
  const XStep := 140
  const YStart := 60
  const YStep := 72

  /** Integer canvas coordinates. */
  datatype Pos = Pos(x: int, y: int)

  /** The `blocks_in_slot` of a `/status` snapshot: for each slot the ids of
      its blocks, in the order they were added. */
  type SlotIndex = map<int, seq<string>>

  /** Where the block at stack position `i` of slot `s` goes. */
  function CellPos(s: int, i: int): Pos {
    Pos(XStart + s * XStep, YStart + i * YStep)
  }

  /** One write `treeLayout[bid] = {x, y}` of the layout loop. */
  datatype Cell = Cell(id: string, pos: Pos)

  /** The first `n` writes for slot `s`, one per block, stacked downward. */
  function SlotPrefix(ids: seq<string>, s: int, n: nat): (cs: seq<Cell>)
    requires n <= |ids|
    ensures |cs| == n
    ensures forall i :: 0 <= i < n ==> cs[i] == Cell(ids[i], CellPos(s, i))
  {
    if n == 0 then [] else SlotPrefix(ids, s, n - 1) + [Cell(ids[n - 1], CellPos(s, n - 1))]
  }

  /** The writes for slot `s`. */
  function SlotCells(ids: seq<string>, s: int): seq<Cell> {
    SlotPrefix(ids, s, |ids|)
  }

  /** The writes of the layout loop, slot by slot in the order of `ks`. */
  function Cells(bis: SlotIndex, ks: seq<int>): seq<Cell>
    requires forall k :: k in ks ==> k in bis
  {
    if ks == [] then []
    else
      var last := ks[|ks| - 1];
      assert last in ks;
      Cells(bis, ks[..|ks| - 1]) + SlotCells(bis[last], last)
  }

  /** The map the writes build up from `{}`: a later write to an id
      replaces an earlier one. */
  function Layout(cells: seq<Cell>): map<string, Pos> {
    if cells == [] then map[]
    else Layout(cells[..|cells| - 1])[cells[|cells| - 1].id := cells[|cells| - 1].pos]
  }

  lemma LayoutSnoc(cells: seq<Cell>, c: Cell)
    ensures Layout(cells + [c]) == Layout(cells)[c.id := c.pos]
  {
    assert (cells + [c])[..|cells|] == cells;
  }

  /** An animation node as `buildTreeLayout` seeds it: in the block's
      column, at the top, of size zero. */
  datatype AnimNode = AnimNode(x: int, y: int, size: int)

  /** `animNodes` after the writes: an id gets a node at its first write,
      unless it had one already. */
  function Seeded(anim: map<string, AnimNode>, cells: seq<Cell>): map<string, AnimNode> {
    if cells == [] then anim
    else
      var prev := Seeded(anim, cells[..|cells| - 1]);
      var c := cells[|cells| - 1];
      if c.id in prev then prev else prev[c.id := AnimNode(c.pos.x, 0, 0)]
  }

  lemma SeededSnoc(anim: map<string, AnimNode>, cells: seq<Cell>, c: Cell)
    ensures Seeded(anim, cells + [c]) ==
      if c.id in Seeded(anim, cells) then Seeded(anim, cells) else Seeded(anim, cells)[c.id := AnimNode(c.pos.x, 0, 0)]
  {
    assert (cells + [c])[..|cells|] == cells;
  }

  lemma CellsSnoc(bis: SlotIndex, ks: seq<int>, k: int)
    requires 0 <= k < |ks| && forall j :: j in ks ==> j in bis
    ensures forall j :: j in ks[..k + 1] ==> j in bis
    ensures Cells(bis, ks[..k + 1]) == Cells(bis, ks[..k]) + SlotCells(bis[ks[k]], ks[k])
  {
    assert ks[..k + 1][..k] == ks[..k];
  }

  /** `maxDepth`: the tallest stack among the slots `ks`, and at least 1. */
  function MaxDepth(bis: SlotIndex, ks: seq<int>): (d: nat)
    requires forall k :: k in ks ==> k in bis
    ensures d >= 1
    ensures forall k :: k in ks ==> |bis[k]| <= d
    ensures d == 1 || exists k :: k in ks && |bis[k]| == d
  {
    if ks == [] then 1
    else
      var init, last := ks[..|ks| - 1], ks[|ks| - 1];
      assert forall k :: k in ks ==> k in init || k == last;
      Max(MaxDepth(bis, init), |bis[last]|)
  }

  /** `maxSlot`: the highest slot, or 10 when there is none. */
  function TopSlot(keys: set<int>): (m: int)
    ensures keys == {} ==> m == 10
    ensures keys != {} ==> m in keys && forall k :: k in keys ==> k <= m
  {
    if keys == {} then 10
    else
      AscendingLast(keys);
      Ascending(keys)[|keys| - 1]
  }

  /** The canvas height `buildTreeLayout` sets for a snapshot. */
  function CanvasHeight(bis: SlotIndex): int {
    Max(600, 120 + MaxDepth(bis, Ascending(bis.Keys)) * YStep)
  }

  /** The canvas width `buildTreeLayout` sets for a snapshot. */
  function CanvasWidth(bis: SlotIndex): int {
    Max(1600, XStart + (TopSlot(bis.Keys) + 2) * XStep)
  }

  /** The block `id` is listed somewhere in the snapshot. */
  ghost predicate Listed(bis: SlotIndex, id: string) {
    exists s, i :: s in bis && 0 <= i < |bis[s]| && bis[s][i] == id
  }

  /** No id is listed at two places, as the server's `"slot:idx"` ids guarantee. */
  ghost predicate ListedOnce(bis: SlotIndex) {
    forall s, i, t, j ::
      (s in bis && t in bis && 0 <= i < |bis[s]| && 0 <= j < |bis[t]| && bis[s][i] == bis[t][j]) ==>
      s == t && i == j
  }

  /** An id is laid out exactly when some write names it, and then at the
      position of one of its writes. */
  lemma {:induction false} LayoutKeys(cells: seq<Cell>, id: string)
    ensures id in Layout(cells) <==> exists c :: c in cells && c.id == id
    ensures id in Layout(cells) ==> Cell(id, Layout(cells)[id]) in cells
  {
    if cells != [] {
      var init := cells[..|cells| - 1];
      LayoutKeys(init, id);
      assert cells == init + [cells[|cells| - 1]];
    }
  }

  /** Where all writes of an id agree on a position, the id is laid out there. */
  lemma LayoutAgreed(cells: seq<Cell>, id: string, p: Pos)
    requires forall c :: c in cells && c.id == id ==> c.pos == p
    requires id in Layout(cells)
    ensures Layout(cells)[id] == p
  {
    LayoutKeys(cells, id);
  }

  /** `c` is the write for block `i` of a slot `s` among `ks`. */
  ghost predicate WriteOf(bis: SlotIndex, ks: seq<int>, c: Cell)
    requires forall k :: k in ks ==> k in bis
  {
    exists s, i :: s in ks && 0 <= i < |bis[s]| && c == Cell(bis[s][i], CellPos(s, i))
  }

  /** Each write is for a listed block, at its slot's column and its stack
      row, and every listed block of the slots `ks` is written. */
  lemma {:induction false} CellsListed(bis: SlotIndex, ks: seq<int>)
    requires forall k :: k in ks ==> k in bis
    ensures forall c :: c in Cells(bis, ks) ==> WriteOf(bis, ks, c)
    ensures forall s, i :: s in ks && 0 <= i < |bis[s]| ==> Cell(bis[s][i], CellPos(s, i)) in Cells(bis, ks)
  {
    if ks != [] {
      var init, last := ks[..|ks| - 1], ks[|ks| - 1];
      CellsListed(bis, init);
      var pre, slot := Cells(bis, init), SlotCells(bis[last], last);
      assert Cells(bis, ks) == pre + slot;
      forall c | c in Cells(bis, ks) ensures WriteOf(bis, ks, c) {
        if c in pre {
          assert WriteOf(bis, init, c);
          var s, i :| s in init && 0 <= i < |bis[s]| && c == Cell(bis[s][i], CellPos(s, i));
          assert s in ks;
        } else {
          var i :| 0 <= i < |slot| && slot[i] == c;
          assert c == Cell(bis[last][i], CellPos(last, i));
        }
      }
      forall s, i | s in ks && 0 <= i < |bis[s]|
        ensures Cell(bis[s][i], CellPos(s, i)) in Cells(bis, ks)
      {
        if s == last {
          assert slot[i] == Cell(bis[s][i], CellPos(s, i));
        } else {
          assert s in init;
        }
      }
    }
  }

  /** The layout of a snapshot has exactly its listed blocks as keys, each at
      the column of a slot it is listed in and the row of its place there;
      when no id is listed twice, block `i` of slot `s` is at `CellPos(s, i)`. */
  lemma LayoutOfSnapshot(bis: SlotIndex)
    ensures var lay := Layout(Cells(bis, Ascending(bis.Keys)));
      && (forall id :: id in lay <==> Listed(bis, id))
      && (forall id :: id in lay ==>
            exists s, i :: s in bis && 0 <= i < |bis[s]| && bis[s][i] == id && lay[id] == CellPos(s, i))
      && (ListedOnce(bis) ==>
            forall s, i :: s in bis && 0 <= i < |bis[s]| ==> bis[s][i] in lay && lay[bis[s][i]] == CellPos(s, i))
  {
    var ks := Ascending(bis.Keys);
    var cells := Cells(bis, ks);
    var lay := Layout(cells);
    CellsListed(bis, ks);
    forall id ensures id in lay <==> Listed(bis, id) {
      LayoutKeys(cells, id);
      if Listed(bis, id) {
        var s, i :| s in bis && 0 <= i < |bis[s]| && bis[s][i] == id;
        assert s in ks;
        assert Cell(bis[s][i], CellPos(s, i)) in cells;
      }
    }
    forall id | id in lay
      ensures exists s, i :: s in bis && 0 <= i < |bis[s]| && bis[s][i] == id && lay[id] == CellPos(s, i)
    {
      LayoutKeys(cells, id);
      assert WriteOf(bis, ks, Cell(id, lay[id]));
    }
    if ListedOnce(bis) {
      forall s, i | s in bis && 0 <= i < |bis[s]|
        ensures bis[s][i] in lay && lay[bis[s][i]] == CellPos(s, i)
      {
        var id := bis[s][i];
        assert s in ks;
        LayoutKeys(cells, id);
        assert Cell(id, CellPos(s, i)) in cells;
        forall c | c in cells && c.id == id ensures c.pos == CellPos(s, i) {
          assert WriteOf(bis, ks, c);
        }
        LayoutAgreed(cells, id, CellPos(s, i));
      }
    }
  }

  /** With ids listed once, no two blocks share a cell: blocks of one slot
      share its column and stack strictly downward, and a later slot is
      strictly further right. */
  lemma NoSharedCell(bis: SlotIndex, s: int, i: int, t: int, j: int)
    requires ListedOnce(bis)
    requires s in bis && 0 <= i < |bis[s]| && t in bis && 0 <= j < |bis[t]| && (s, i) != (t, j)
    ensures var lay := Layout(Cells(bis, Ascending(bis.Keys)));
      && bis[s][i] in lay && bis[t][j] in lay
      && lay[bis[s][i]] != lay[bis[t][j]]
      && (s == t ==> lay[bis[s][i]].x == lay[bis[t][j]].x && (i < j <==> lay[bis[s][i]].y < lay[bis[t][j]].y))
      && (s < t ==> lay[bis[s][i]].x < lay[bis[t][j]].x)
  {
    LayoutOfSnapshot(bis);
  }

  /** Every laid-out block lies strictly inside the canvas `buildTreeLayout`
      sizes: the width leaves two columns past the highest slot, the height
      a row past the tallest stack. */
  lemma LayoutFitsCanvas(bis: SlotIndex, id: string)
    requires forall s :: s in bis ==> s >= 0
    requires id in Layout(Cells(bis, Ascending(bis.Keys)))
    ensures var p := Layout(Cells(bis, Ascending(bis.Keys)))[id];
      0 < p.x < CanvasWidth(bis) && 0 < p.y < CanvasHeight(bis)
  {
    var ks := Ascending(bis.Keys);
    var lay := Layout(Cells(bis, ks));
    LayoutOfSnapshot(bis);
    var s, i :| s in bis && 0 <= i < |bis[s]| && bis[s][i] == id && lay[id] == CellPos(s, i);
    assert s in ks;
    var d := MaxDepth(bis, ks);
    assert i + 1 <= d;
    assert s <= TopSlot(bis.Keys);
  }

  /** `animNodes` keeps every node it had, and gains one for each newly
      written id, seeded from that id's first write. */
  lemma {:induction false} SeededSpec(anim: map<string, AnimNode>, cells: seq<Cell>, id: string)
    ensures id in Seeded(anim, cells) <==> id in anim || exists j :: 0 <= j < |cells| && cells[j].id == id
    ensures id in anim ==> Seeded(anim, cells)[id] == anim[id]
    ensures id !in anim && id in Seeded(anim, cells) ==>
      exists j :: 0 <= j < |cells| && cells[j].id == id &&
        Seeded(anim, cells)[id] == AnimNode(cells[j].pos.x, 0, 0) &&
        forall j' :: 0 <= j' < j ==> cells[j'].id != id
  {
    if cells != [] {
      var init := cells[..|cells| - 1];
      SeededSpec(anim, init, id);
      assert forall j :: 0 <= j < |init| ==> init[j] == cells[j];
    }
  }

  /** A vote still in flight, as listed in the snapshot's `pending_votes`. */
  datatype PendingVote = PendingVote(deliverSlot: nat, validator: nat, blockId: string)

  /** The pool key `${validator}->${block_id}@${deliver_slot}`. */
  function PacketKey(ev: PendingVote): string {
    NatToString(ev.validator) + "->" + ev.blockId + "@" + NatToString(ev.deliverSlot)
  }

  /** Where the three parts of a key sit in it. */
  lemma KeyParts(v: string, b: string, d: string)
    ensures var s := v + "->" + b + "@" + d;
      && |s| == |v| + |b| + |d| + 3
      && s[..|v|] == v && s[|v|] == '-'
      && s[|s| - |d|..] == d && s[|s| - |d| - 1] == '@'
      && s[|v| + 2..|s| - |d| - 1] == b
  {
    var s := v + "->" + b + "@" + d;
    assert s == v + ("->" + b + "@" + d);
    assert s == (v + "->" + b + "@") + d;
    assert s == (v + "->") + b + ("@" + d);
  }

  /** Different pending votes never share a key: the validator's digits end
      at the first `-`, the slot's digits start after the last `@`. */
  lemma PacketKeyInjective(a: PendingVote, b: PendingVote)
    requires PacketKey(a) == PacketKey(b)
    ensures a == b
  {
    var s := PacketKey(a);
    var va, vb := NatToString(a.validator), NatToString(b.validator);
    var da, db := NatToString(a.deliverSlot), NatToString(b.deliverSlot);
    KeyParts(va, a.blockId, da);
    KeyParts(vb, b.blockId, db);
    NatToStringInjective(a.validator, b.validator);
    NatToStringInjective(a.deliverSlot, b.deliverSlot);
  }

  /** An animated vote packet travelling from its validator's badge `(sx, sy)`
      to its block `(ex, ey)`; it has been shown for `t` of its `frames`. */
  datatype Packet = Packet(key: string, validator: nat, blockId: string, deliverSlot: nat,
                           sx: int, sy: int, ex: int, ey: int, t: nat, frames: nat)

  /** The packet `createPacketsFromPending` makes for `ev`: it starts at the
      validator's badge (ten to a row), ends at the block's place or, for a
      block not laid out, near the top right corner, and travels 30 frames
      per slot still to wait, 40 at least. */
  function NewPacket(ev: PendingVote, layout: map<string, Pos>, width: int, current: nat): (p: Packet)
    ensures p.key == PacketKey(ev) && p.t == 0
    ensures p.frames >= 40 && p.frames >= 30 * (ev.deliverSlot - current)
    ensures ev.blockId in layout ==> Pos(p.ex, p.ey) == layout[ev.blockId]
  {
    var frames := Max(40, Max(1, ev.deliverSlot - current) * 30);
    var end := if ev.blockId in layout then layout[ev.blockId] else Pos(width - 100, 40);
    Packet(PacketKey(ev), ev.validator, ev.blockId, ev.deliverSlot,
           40 + (ev.validator % 10) * 22, 20 + (ev.validator / 10) * 18, end.x, end.y, 0, frames)
  }

  /** `packetPool.find(p => p.key === key)` finds something. */
  predicate HasKey(pool: seq<Packet>, key: string) {
    exists i :: 0 <= i < |pool| && pool[i].key == key
  }

  /** No key occurs twice in the pool. */
  predicate UniqueKeys(pool: seq<Packet>) {
    forall i, j :: 0 <= i < j < |pool| ==> pool[i].key != pool[j].key
  }

  /** Every packet in the pool still has frames to go. */
  predicate Live(pool: seq<Packet>) {
    forall i :: 0 <= i < |pool| ==> pool[i].t < pool[i].frames
  }

  /** The pool after `createPacketsFromPending(evs)`: each event whose key is
      not yet in the pool appends a new packet. */
  function Enqueue(pool: seq<Packet>, evs: seq<PendingVote>, layout: map<string, Pos>, width: int,
                   current: nat): seq<Packet>
  {
    if evs == [] then pool
    else
      var prev := Enqueue(pool, evs[..|evs| - 1], layout, width, current);
      var ev := evs[|evs| - 1];
      if HasKey(prev, PacketKey(ev)) then prev else prev + [NewPacket(ev, layout, width, current)]
  }

  /** Enqueueing keeps the pool as it was and appends at most one packet
      per event, each of them the one made for one of the events. */
  lemma {:induction false} EnqueueAppends(pool: seq<Packet>, evs: seq<PendingVote>, layout: map<string, Pos>,
                                          width: int, current: nat)
    ensures var pool' := Enqueue(pool, evs, layout, width, current);
      && |pool| <= |pool'| <= |pool| + |evs| && pool'[..|pool|] == pool
      && forall j :: |pool| <= j < |pool'| ==>
           exists ev :: ev in evs && pool'[j] == NewPacket(ev, layout, width, current)
  {
    if evs != [] {
      var init, ev := evs[..|evs| - 1], evs[|evs| - 1];
      EnqueueAppends(pool, init, layout, width, current);
      var prev := Enqueue(pool, init, layout, width, current);
      var pool' := Enqueue(pool, evs, layout, width, current);
      assert pool'[..|prev|] == prev;
      forall j | |pool| <= j < |pool'|
        ensures exists e :: e in evs && pool'[j] == NewPacket(e, layout, width, current)
      {
        if j < |prev| {
          var e :| e in init && prev[j] == NewPacket(e, layout, width, current);
          assert pool'[j] == prev[j] && e in evs;
        } else {
          assert pool'[j] == NewPacket(ev, layout, width, current);
        }
      }
    }
  }

  /** Afterwards every event's key is in the pool. */
  lemma {:induction false} EnqueueCovers(pool: seq<Packet>, evs: seq<PendingVote>, layout: map<string, Pos>,
                                         width: int, current: nat)
    ensures forall ev :: ev in evs ==> HasKey(Enqueue(pool, evs, layout, width, current), PacketKey(ev))
  {
    if evs != [] {
      var init, last := evs[..|evs| - 1], evs[|evs| - 1];
      EnqueueCovers(pool, init, layout, width, current);
      var prev := Enqueue(pool, init, layout, width, current);
      var pool' := Enqueue(pool, evs, layout, width, current);
      assert pool'[..|prev|] == prev;
      forall ev | ev in evs ensures HasKey(pool', PacketKey(ev)) {
        if ev in init {
          var i :| 0 <= i < |prev| && prev[i].key == PacketKey(ev);
          assert pool'[i] == prev[i];
        } else if !HasKey(prev, PacketKey(last)) {
          assert pool'[|prev|].key == PacketKey(last);
        }
      }
    }
  }

  /** Keys stay unique, a key repeated within the batch included, and a live
      pool stays live. */
  lemma {:induction false} EnqueueValid(pool: seq<Packet>, evs: seq<PendingVote>, layout: map<string, Pos>,
                                        width: int, current: nat)
    requires UniqueKeys(pool) && Live(pool)
    ensures UniqueKeys(Enqueue(pool, evs, layout, width, current)) && Live(Enqueue(pool, evs, layout, width, current))
  {
    if evs != [] {
      var init, ev := evs[..|evs| - 1], evs[|evs| - 1];
      EnqueueValid(pool, init, layout, width, current);
      var prev := Enqueue(pool, init, layout, width, current);
      if !HasKey(prev, PacketKey(ev)) {
        var p := NewPacket(ev, layout, width, current);
        assert forall i :: 0 <= i < |prev| ==> prev[i].key != p.key;
        assert forall i :: 0 <= i < |prev| ==> (prev + [p])[i] == prev[i];
      }
    }
  }

  /** The packet one frame later. */
  function Tick(p: Packet): Packet {
    p.(t := p.t + 1)
  }

  /** A transient flash drawn around `(x, y)`; it fades out over `life` renders. */
  datatype Flash = Flash(x: int, y: int, r: int, life: int)

  /** `flashAt(p.ex, p.ey, p.color)`: the flash a packet leaves at its block. */
  function Spark(p: Packet): Flash {
    Flash(p.ex, p.ey, 2, 30)
  }

  /** The pool after a frame: every packet one frame further, in the same
      order, without those that have now used up their frames. */
  function Survivors(pool: seq<Packet>): seq<Packet> {
    if pool == [] then []
    else (if Tick(pool[0]).t >= pool[0].frames then [] else [Tick(pool[0])]) + Survivors(pool[1..])
  }

  /** The flashes a frame pushes: one per arriving packet, last packet first,
      as the frame walks the pool from its end. */
  function Sparks(pool: seq<Packet>): seq<Flash> {
    if pool == [] then []
    else Sparks(pool[1..]) + (if Tick(pool[0]).t >= pool[0].frames then [Spark(pool[0])] else [])
  }

  /** The pool after `k` frames. */
  function Frames(pool: seq<Packet>, k: nat): seq<Packet> {
    if k == 0 then pool else Survivors(Frames(pool, k - 1))
  }

  /** The packets that still have frames to go after `k` more frames, with
      their clocks advanced by `k`. */
  function Advanced(pool: seq<Packet>, k: nat): seq<Packet> {
    if pool == [] then []
    else (if pool[0].t + k < pool[0].frames then [pool[0].(t := pool[0].t + k)] else []) + Advanced(pool[1..], k)
  }

  lemma {:induction false} SurvivorsOfAdvanced(pool: seq<Packet>, k: nat)
    ensures Survivors(Advanced(pool, k)) == Advanced(pool, k + 1)
  {
    if pool != [] {
      SurvivorsOfAdvanced(pool[1..], k);
      var head := if pool[0].t + k < pool[0].frames then [pool[0].(t := pool[0].t + k)] else [];
      SurvivorsAppend(head, Advanced(pool[1..], k));
    }
  }

  lemma {:induction false} SurvivorsAppend(a: seq<Packet>, b: seq<Packet>)
    ensures Survivors(a + b) == Survivors(a) + Survivors(b)
  {
    if a == [] {
      assert a + b == b;
    } else {
      assert (a + b)[1..] == a[1..] + b;
      SurvivorsAppend(a[1..], b);
    }
  }

  /** A live pool after `k` frames is the pool advanced by `k`: a packet is
      shown for exactly the frames it has left, then dropped. */
  lemma {:induction false} FramesAdvance(pool: seq<Packet>, k: nat)
    requires Live(pool)
    ensures Frames(pool, k) == Advanced(pool, k)
  {
    if k == 0 {
      AdvancedNone(pool);
    } else {
      FramesAdvance(pool, k - 1);
      SurvivorsOfAdvanced(pool, k - 1);
    }
  }

  lemma {:induction false} AdvancedNone(pool: seq<Packet>)
    requires Live(pool)
    ensures Advanced(pool, 0) == pool
  {
    if pool != [] {
      AdvancedNone(pool[1..]);
    }
  }

  /** What is in the pool advanced by `k`: the packets with more than `k`
      frames to go, `k` frames on. */
  lemma {:induction false} AdvancedMembers(pool: seq<Packet>, k: nat)
    ensures forall x :: x in Advanced(pool, k) <==>
      exists p :: p in pool && p.t + k < p.frames && x == p.(t := p.t + k)
  {
    if pool != [] {
      AdvancedMembers(pool[1..], k);
      assert pool == [pool[0]] + pool[1..];
    }
  }

  /** Advancing keeps keys unique and leaves only packets with frames to go. */
  lemma {:induction false} AdvancedValid(pool: seq<Packet>, k: nat)
    requires UniqueKeys(pool)
    ensures UniqueKeys(Advanced(pool, k)) && Live(Advanced(pool, k))
  {
    if pool != [] {
      AdvancedValid(pool[1..], k);
      AdvancedMembers(pool[1..], k);
      var rest := Advanced(pool[1..], k);
      forall x | x in rest ensures x.key != pool[0].key {
        var p :| p in pool[1..] && p.t + k < p.frames && x == p.(t := p.t + k);
        var j :| 0 <= j < |pool[1..]| && pool[1..][j] == p;
        assert pool[j + 1] == p;
      }
      if pool[0].t + k < pool[0].frames {
        var head := pool[0].(t := pool[0].t + k);
        assert Advanced(pool, k) == [head] + rest;
        assert forall i :: 0 < i < |Advanced(pool, k)| ==> Advanced(pool, k)[i] == rest[i - 1];
        assert forall i :: 0 <= i < |rest| ==> rest[i] in rest;
      }
    }
  }

  /** A new packet (clock at 0) of a live pool with unique keys is in the
      pool, `k` frames on, for each `k` below its frame budget; in the frame
      that reaches the budget it leaves a flash at its block, and from then
      on no packet has its key. */
  lemma PacketLifetime(pool: seq<Packet>, i: int, k: nat)
    requires Live(pool) && UniqueKeys(pool) && 0 <= i < |pool| && pool[i].t == 0
    ensures k < pool[i].frames ==> pool[i].(t := k) in Frames(pool, k)
    ensures pool[i].frames <= k ==> !HasKey(Frames(pool, k), pool[i].key)
    ensures Spark(pool[i]) in Sparks(Frames(pool, pool[i].frames - 1))
  {
    if pool[i].frames <= k {
      PacketGone(pool, i, k);
    } else {
      FramesAdvance(pool, k);
      AdvancedMembers(pool, k);
      assert pool[i] in pool;
    }
    var last := pool[i].frames - 1;
    FramesAdvance(pool, last);
    AdvancedMembers(pool, last);
    var p := pool[i].(t := last);
    assert pool[i] in pool;
    assert p in Frames(pool, last);
    SparksMembers(Frames(pool, last), p);
  }

  /** Once its frame budget is spent a packet's key is gone from the pool. */
  lemma PacketGone(pool: seq<Packet>, i: int, k: nat)
    requires Live(pool) && UniqueKeys(pool) && 0 <= i < |pool| && pool[i].t == 0
    requires pool[i].frames <= k
    ensures !HasKey(Frames(pool, k), pool[i].key)
  {
    FramesAdvance(pool, k);
    AdvancedMembers(pool, k);
    var f := Frames(pool, k);
    forall n | 0 <= n < |f| ensures f[n].key != pool[i].key {
      assert f[n] in Advanced(pool, k);
      var p :| p in pool && p.t + k < p.frames && f[n] == p.(t := p.t + k);
      var j :| 0 <= j < |pool| && pool[j] == p;
      assert j != i;
    }
  }


  lemma {:induction false} SparksMembers(pool: seq<Packet>, p: Packet)
    requires p in pool && Tick(p).t >= p.frames
    ensures Spark(p) in Sparks(pool)
  {
    if pool[0] != p {
      SparksMembers(pool[1..], p);
    }
  }

  /** The flashes after one render: each one a life shorter, in the same
      order, without those that have faded out. */
  function Faded(fs: seq<Flash>): seq<Flash> {
    if fs == [] then []
    else (if fs[0].life - 1 <= 0 then [] else [fs[0].(life := fs[0].life - 1)]) + Faded(fs[1..])
  }

  /** Every flash still has life left. */
  predicate Lit(fs: seq<Flash>) {
    forall i :: 0 <= i < |fs| ==> fs[i].life > 0
  }

  /** The flashes after `k` renders. */
  function Renders(fs: seq<Flash>, k: nat): seq<Flash> {
    if k == 0 then fs else Faded(Renders(fs, k - 1))
  }

  /** The flashes with more than `k` life, each `k` shorter. */
  function Aged(fs: seq<Flash>, k: nat): seq<Flash> {
    if fs == [] then []
    else (if fs[0].life > k then [fs[0].(life := fs[0].life - k)] else []) + Aged(fs[1..], k)
  }

  lemma {:induction false} FadedAppend(a: seq<Flash>, b: seq<Flash>)
    ensures Faded(a + b) == Faded(a) + Faded(b)
  {
    if a == [] {
      assert a + b == b;
    } else {
      assert (a + b)[1..] == a[1..] + b;
      FadedAppend(a[1..], b);
    }
  }

  lemma {:induction false} FadedOfAged(fs: seq<Flash>, k: nat)
    ensures Faded(Aged(fs, k)) == Aged(fs, k + 1)
  {
    if fs != [] {
      FadedOfAged(fs[1..], k);
      var head := if fs[0].life > k then [fs[0].(life := fs[0].life - k)] else [];
      FadedAppend(head, Aged(fs[1..], k));
    }
  }

  lemma {:induction false} AgedNone(fs: seq<Flash>)
    requires Lit(fs)
    ensures Aged(fs, 0) == fs
  {
    if fs != [] {
      AgedNone(fs[1..]);
    }
  }

  lemma {:induction false} AgedMembers(fs: seq<Flash>, k: nat, x: Flash)
    requires x in Aged(fs, k)
    ensures exists i :: 0 <= i < |fs| && fs[i].life > k && x == fs[i].(life := fs[i].life - k)
  {
    if x != Aged(fs, k)[0] || fs[0].life <= k {
      AgedMembers(fs[1..], k, x);
      var i :| 0 <= i < |fs[1..]| && fs[1..][i].life > k && x == fs[1..][i].(life := fs[1..][i].life - k);
      assert fs[i + 1] == fs[1..][i];
    }
  }

  /** After `k` renders exactly the flashes with more than `k` life are left,
      each `k` shorter; so a flash of life 30, as every flash starts, is gone
      after 30 renders. */
  lemma {:induction false} FlashCountdown(fs: seq<Flash>, k: nat)
    requires Lit(fs)
    ensures Renders(fs, k) == Aged(fs, k)
    ensures (forall i :: 0 <= i < |fs| ==> fs[i].life <= k) ==> Renders(fs, k) == []
  {
    if k == 0 {
      AgedNone(fs);
    } else {
      FlashCountdown(fs, k - 1);
      FadedOfAged(fs, k - 1);
    }
    if forall i :: 0 <= i < |fs| ==> fs[i].life <= k {
      AgedSpent(fs, k);
    }
  }

  /** Flashes with no more than `k` life are all gone after ageing by `k`. */
  lemma {:induction false} AgedSpent(fs: seq<Flash>, k: nat)
    requires forall i :: 0 <= i < |fs| ==> fs[i].life <= k
    ensures Aged(fs, k) == []
  {
    if fs != [] {
      assert forall i :: 0 <= i < |fs[1..]| ==> fs[1..][i] == fs[i + 1];
      AgedSpent(fs[1..], k);
    }
  }

  /** A block of the snapshot's `chain`, as far as the parent walk reads it. */
  datatype SnapBlock = SnapBlock(slot: int, parent: Option<string>)

  /** A highlighted segment from a block up to its parent. */
  datatype Edge = Edge(child: string, parent: string)

  /** Where `highlightParentChain`'s walk stops at `cur`: an empty id, a
      block that is missing or has no parent, or a missing layout. */
  predicate WalkStops(chain: map<string, SnapBlock>, layout: map<string, Pos>, cur: string) {
    || cur == "" || cur !in chain
    || chain[cur].parent.None? || chain[cur].parent.value == ""
    || chain[cur].parent.value !in layout || cur !in layout
  }

  /** Every parent in the chain has a smaller slot than its child, as the
      server's blocks do. */
  ghost predicate ParentsOlder(chain: map<string, SnapBlock>) {
    forall id :: id in chain && chain[id].parent.Some? && chain[id].parent.value in chain ==>
      chain[chain[id].parent.value].slot < chain[id].slot
  }

  /** The `maxDepth` loop of `buildTreeLayout`. */
  method TallestStack(bis: SlotIndex, ks: seq<int>) returns (d: nat)
    requires forall k :: k in ks ==> k in bis
    ensures d == MaxDepth(bis, ks)
  {
    d := 1;
    for j := 0 to |ks|
      invariant d == MaxDepth(bis, ks[..j])
    {
      var s := ks[j];
      assert s in ks;
      var count := |bis[s]|;
      if count > d {
        d := count;
      }
    }
    assert ks[..|ks|] == ks;
  }

  /** The inner loop of `buildTreeLayout` for one slot `s`: each block is
      written at its stack position, and seeded when it has no node yet. */
  method PlaceSlot(ghost done: seq<Cell>, layout: map<string, Pos>, anim0: map<string, AnimNode>,
                   anim: map<string, AnimNode>, ids: seq<string>, s: int)
    returns (layout': map<string, Pos>, anim': map<string, AnimNode>)
    requires layout == Layout(done) && anim == Seeded(anim0, done)
    ensures layout' == Layout(done + SlotCells(ids, s))
    ensures anim' == Seeded(anim0, done + SlotCells(ids, s))
  {
    layout', anim' := layout, anim;
    ghost var written := done;
    for i := 0 to |ids|
      invariant written == done + SlotPrefix(ids, s, i)
      invariant layout' == Layout(written) && anim' == Seeded(anim0, written)
    {
      var c := Cell(ids[i], CellPos(s, i));
      LayoutSnoc(written, c);
      SeededSnoc(anim0, written, c);
      layout' := layout'[c.id := c.pos];
      if c.id !in anim' {
        anim' := anim'[c.id := AnimNode(c.pos.x, 0, 0)];
      }
      AppendAssoc(done, SlotPrefix(ids, s, i), [c]);
      written := written + [c];
    }
  }

  /** The slot loop of `buildTreeLayout`: every slot of `ks` in turn. */
  method PlaceSlots(bis: SlotIndex, ks: seq<int>, anim0: map<string, AnimNode>)
    returns (layout: map<string, Pos>, anim: map<string, AnimNode>)
    requires forall k :: k in ks ==> k in bis
    ensures layout == Layout(Cells(bis, ks)) && anim == Seeded(anim0, Cells(bis, ks))
  {
    layout, anim := map[], anim0;
    for k := 0 to |ks|
      invariant layout == Layout(Cells(bis, ks[..k]))
      invariant anim == Seeded(anim0, Cells(bis, ks[..k]))
    {
      CellsSnoc(bis, ks, k);
      layout, anim := PlaceSlot(Cells(bis, ks[..k]), layout, anim0, anim, bis[ks[k]], ks[k]);
    }
    assert ks[..|ks|] == ks;
  }

  /** `edges` is a walk up parent links: each child is stored with that
      parent, and each edge starts where the previous one ended. */
  ghost predicate ParentPath(chain: map<string, SnapBlock>, edges: seq<Edge>) {
    && (forall k :: 0 <= k < |edges| ==>
          edges[k].child in chain && chain[edges[k].child].parent == Some(edges[k].parent))
    && (forall k :: 0 <= k < |edges| - 1 ==> edges[k + 1].child == edges[k].parent)
  }

  /** Along a walk up a chain whose parents are older, slots strictly fall. */
  lemma {:induction false} PathSlotsDescend(chain: map<string, SnapBlock>, edges: seq<Edge>, j: int)
    requires ParentPath(chain, edges) && ParentsOlder(chain) && 0 <= j < |edges|
    ensures forall k :: 0 <= k < j ==> chain[edges[j].child].slot < chain[edges[k].child].slot
  {
    if j > 0 {
      PathSlotsDescend(chain, edges, j - 1);
      var c := edges[j - 1].child;
      assert chain[c].parent.value == edges[j].child;
    }
  }

  /** When parents are older a walk never comes back to a block it left, so
      the visited guard of the walk never fires and it ends for a reason of
      `WalkStops`. */
  lemma WalkAcyclic(chain: map<string, SnapBlock>, edges: seq<Edge>, blockId: string)
    requires ParentPath(chain, edges) && ParentsOlder(chain)
    ensures var last := if edges == [] then blockId else edges[|edges| - 1].parent;
      forall k :: 0 <= k < |edges| ==> edges[k].child != last
  {
    if edges != [] {
      var n := |edges| - 1;
      var last := edges[n].parent;
      if last in chain {
        PathSlotsDescend(chain, edges, n);
        assert chain[last].slot < chain[edges[n].child].slot;
      }
    }
  }

  /** `animateLoop`'s packet loop and, before it, the flash pass of
      `renderBaseTree`, with `buildTreeLayout`'s and
      `createPacketsFromPending`'s state. */
  class Visualizer {
    var treeLayout: map<string, Pos>
    var animNodes: map<string, AnimNode>
    var canvasWidth: int
    var canvasHeight: int
    var packetPool: seq<Packet>
    var flashes: seq<Flash>

    /** The pool's invariant: unique keys, and every packet still moving; and
        every flash still visible. */
    predicate Valid()
      reads this
    {
      UniqueKeys(packetPool) && Live(packetPool) && Lit(flashes)
    }

    /** The page's start: nothing laid out, no packet, no flash, and the
        1600 by 600 canvas `ensureDOM` creates. */
    constructor ()
      ensures Valid()
      ensures treeLayout == map[] && animNodes == map[] && packetPool == [] && flashes == []
      ensures canvasWidth == 1600 && canvasHeight == 600
    {
      treeLayout, animNodes := map[], map[];
      canvasWidth, canvasHeight := 1600, 600;
      packetPool, flashes := [], [];
    }

    /** `buildTreeLayout`: the layout is rebuilt from `{}` over the slots in
        ascending order, the canvas resized to hold it, and a node seeded for
        each newly laid-out block, leaving the existing nodes as they are. */
    method BuildTreeLayout(bis: SlotIndex)
      modifies this`treeLayout, this`animNodes, this`canvasWidth, this`canvasHeight
      ensures treeLayout == Layout(Cells(bis, Ascending(bis.Keys)))
      ensures animNodes == Seeded(old(animNodes), Cells(bis, Ascending(bis.Keys)))
      ensures canvasHeight == CanvasHeight(bis) && canvasWidth == CanvasWidth(bis)
    {
      var ks := Ascending(bis.Keys);
      var maxDepth := TallestStack(bis, ks);
      var height := Max(600, 120 + maxDepth * YStep);
      var maxSlot := if |ks| > 0 then ks[|ks| - 1] else 10;
      var width := Max(1600, XStart + (maxSlot + 2) * XStep);

      var layout, anim := PlaceSlots(bis, ks, animNodes);
      treeLayout, animNodes, canvasWidth, canvasHeight := layout, anim, width, height;
    }

    /** `createPacketsFromPending`: a packet for each pending vote whose key
        is not in the pool yet, aimed at the current layout. */
    method CreatePacketsFromPending(pending: seq<PendingVote>, currentSlot: nat)
      requires Valid()
      modifies this`packetPool
      ensures Valid()
      ensures packetPool == Enqueue(old(packetPool), pending, treeLayout, canvasWidth, currentSlot)
    {
      var pool := packetPool;
      for k := 0 to |pending|
        invariant pool == Enqueue(packetPool, pending[..k], treeLayout, canvasWidth, currentSlot)
      {
        var ev := pending[k];
        assert pending[..k + 1][..k] == pending[..k];
        if !HasKey(pool, PacketKey(ev)) {
          pool := pool + [NewPacket(ev, treeLayout, canvasWidth, currentSlot)];
        }
      }
      assert pending[..|pending|] == pending;
      EnqueueValid(packetPool, pending, treeLayout, canvasWidth, currentSlot);
      packetPool := pool;
    }

    /** The packet loop of `animateLoop`: walking the pool from its end,
        every packet moves a frame on; one that has used up its frames
        leaves a flash at its block and is spliced out. */
    method AnimatePackets()
      requires Valid()
      modifies this`packetPool, this`flashes
      ensures Valid()
      ensures packetPool == Survivors(old(packetPool))
      ensures flashes == old(flashes) + Sparks(old(packetPool))
    {
      var pool := packetPool;
      var fl := flashes;
      var i := |pool|;
      while i > 0
        invariant 0 <= i <= |packetPool|
        invariant pool == packetPool[..i] + Survivors(packetPool[i..])
        invariant fl == flashes + Sparks(packetPool[i..])
      {
        i := i - 1;
        assert packetPool[i..] == [packetPool[i]] + packetPool[i + 1..];
        assert pool[i] == packetPool[i];
        var p := Tick(pool[i]);
        if p.t >= p.frames {
          fl := fl + [Spark(p)];
          pool := pool[..i] + pool[i + 1..];
        } else {
          pool := pool[i := p];
        }
      }
      assert packetPool[0..] == packetPool;
      SurvivorsValid(packetPool);
      SparksLit(packetPool);
      packetPool, flashes := pool, fl;
    }

    /** `renderFlashes`: walking from the end, every flash loses a life and
        one with none left is spliced out. */
    method RenderFlashes()
      requires Valid()
      modifies this`flashes
      ensures Valid()
      ensures flashes == Faded(old(flashes))
    {
      var fl := flashes;
      var i := |fl|;
      while i > 0
        invariant 0 <= i <= |flashes|
        invariant fl == flashes[..i] + Faded(flashes[i..])
      {
        i := i - 1;
        assert flashes[i..] == [flashes[i]] + flashes[i + 1..];
        var f := fl[i].(life := fl[i].life - 1);
        if f.life <= 0 {
          fl := fl[..i] + fl[i + 1..];
        } else {
          fl := fl[i := f];
        }
      }
      assert flashes[0..] == flashes;
      FadedLit(flashes);
      flashes := fl;
    }

    /** One animation frame: `renderBaseTree` ages the flashes, then the
        packets move and the arriving ones leave fresh flashes. */
    method AnimationFrame()
      requires Valid()
      modifies this`packetPool, this`flashes
      ensures Valid()
      ensures packetPool == Survivors(old(packetPool))
      ensures flashes == Faded(old(flashes)) + Sparks(old(packetPool))
    {
      RenderFlashes();
      AnimatePackets();
    }

    /** The parent walk of `highlightParentChain(blockId)`: the segments
        drawn, from the block up its chain of parents. It also stops where
        it comes back to a block it has already drawn from. */
    method HighlightParentChain(chain: map<string, SnapBlock>, blockId: string) returns (edges: seq<Edge>)
      ensures forall k :: 0 <= k < |edges| ==>
        && edges[k].child in chain && chain[edges[k].child].parent == Some(edges[k].parent)
        && edges[k].child in treeLayout && edges[k].parent in treeLayout && edges[k].parent != ""
      ensures |edges| > 0 ==> edges[0].child == blockId
      ensures forall k :: 0 <= k < |edges| - 1 ==> edges[k + 1].child == edges[k].parent
      ensures forall k, l :: 0 <= k < l < |edges| ==> edges[k].child != edges[l].child
      ensures var last := if edges == [] then blockId else edges[|edges| - 1].parent;
        WalkStops(chain, treeLayout, last) || exists k :: 0 <= k < |edges| && edges[k].child == last
    {
      edges := [];
      var cur := blockId;
      var visited: set<string> := {};
      while cur != "" && cur !in visited
        invariant visited <= chain.Keys
        invariant forall id :: id in visited <==> exists e :: e in edges && e.child == id
        invariant forall k :: 0 <= k < |edges| ==>
          && edges[k].child in chain && chain[edges[k].child].parent == Some(edges[k].parent)
          && edges[k].child in treeLayout && edges[k].parent in treeLayout && edges[k].parent != ""
        invariant |edges| > 0 ==> edges[0].child == blockId && cur == edges[|edges| - 1].parent
        invariant edges == [] ==> cur == blockId
        invariant forall k :: 0 <= k < |edges| - 1 ==> edges[k + 1].child == edges[k].parent
        invariant forall k, l :: 0 <= k < l < |edges| ==> edges[k].child != edges[l].child
        decreases chain.Keys - visited
      {
        if cur !in chain || chain[cur].parent.None? || chain[cur].parent.value == "" {
          break;
        }
        var parent := chain[cur].parent.value;
        if parent !in treeLayout || cur !in treeLayout {
          break;
        }
        edges := edges + [Edge(cur, parent)];
        visited := visited + {cur};
        cur := parent;
      }
    }
  }

  lemma {:induction false} SurvivorsValid(pool: seq<Packet>)
    requires UniqueKeys(pool) && Live(pool)
    ensures UniqueKeys(Survivors(pool)) && Live(Survivors(pool))
  {
    AdvancedNone(pool);
    SurvivorsOfAdvanced(pool, 0);
    AdvancedValid(pool, 1);
  }

  lemma {:induction false} SparksLit(pool: seq<Packet>)
    ensures Lit(Sparks(pool))
  {
    if pool != [] {
      SparksLit(pool[1..]);
    }
  }

  lemma {:induction false} FadedLit(fs: seq<Flash>)
    ensures Lit(Faded(fs))
  {
    if fs != [] {
      FadedLit(fs[1..]);
    }
  }
}
