/** The experiment side of `app.js`: the faulty-fraction control, the sweep
    over fault fraction and vote delay with the metrics derived from each
    run, and the arithmetic of the three sweep charts. Each request the page
    sends to `server2.py` is the matching function or method of `SsfServer`
    applied to the simulator's state. */
module Sweep {
  import opened Common
  import opened BlockTree
  import opened SsfServer

  // ---------------------------------------------------------------------
  // The faulty-fraction control (`applyFaultFraction`)
  // ---------------------------------------------------------------------

  lemma FracBound(total: nat, frac: real)
    requires 0.0 <= frac <= 1.0
    ensures 0.0 <= total as real * frac <= total as real
  {
    assert total as real * (1.0 - frac) >= 0.0;
  }

  /** `Math.floor(total * frac)`: how many leading validators are to be faulty. */
  function FaultyCount(total: nat, frac: real): (k: nat)
    requires 0.0 <= frac <= 1.0
    ensures k <= total
    ensures k as real <= total as real * frac < k as real + 1.0
  {
    FracBound(total, frac);
    var f := (total as real * frac).Floor;
    assert f >= 0;
    f
  }

  /** The two loops of `applyFaultFraction` over the roster's faulty flags:
      every validator below `k` that is not faulty, then every one from `k`
      on that is, gets a toggle, in index order. */
  method FaultTogglePlan(faulty: seq<bool>, frac: real) returns (k: nat, toggles: seq<int>)
    requires 0.0 <= frac <= 1.0
    ensures k == FaultyCount(|faulty|, frac)
    ensures StrictlyIncreasing(toggles)
    ensures forall j :: 0 <= j < |toggles| ==> 0 <= toggles[j] < |faulty|
    ensures forall i :: 0 <= i < |faulty| ==> (i in toggles <==> faulty[i] != (i < k))
  {
    k := FaultyCount(|faulty|, frac);
    toggles := [];
    for i := 0 to k
      invariant forall j :: 0 <= j < |toggles| ==> 0 <= toggles[j] < i
      invariant StrictlyIncreasing(toggles)
      invariant forall x :: 0 <= x < i ==> (x in toggles <==> !faulty[x])
    {
      if !faulty[i] {
        toggles := toggles + [i];
      }
    }
    for i := k to |faulty|
      invariant forall j :: 0 <= j < |toggles| ==> 0 <= toggles[j] < i
      invariant StrictlyIncreasing(toggles)
      invariant forall x :: 0 <= x < i ==> (x in toggles <==> faulty[x] != (x < k))
    {
      if faulty[i] {
        toggles := toggles + [i];
      }
    }
  }

  /** The `/toggle_fault` requests for the ids `ids`, sent one after another. */
  function ApplyToggles(w: World, ids: seq<int>): (r: World)
    requires RosterValid(w.validators)
    ensures RosterValid(r.validators) && r == w.(validators := r.validators)
    ensures WorldValid(w) ==> WorldValid(r)
    decreases |ids|
  {
    if ids == [] then w
    else
      ToggleFaultEffect(w, Some(ids[0]));
      ApplyToggles(ToggleFault(w, Some(ids[0])).0, ids[1..])
  }

  /** Toggling distinct ids of the roster flips exactly their faulty flags. */
  lemma {:induction false} ToggledFlags(w: World, ids: seq<int>)
    requires RosterValid(w.validators) && Distinct(ids)
    requires forall j :: 0 <= j < |ids| ==> 0 <= ids[j] < NumValidators
    ensures forall i :: 0 <= i < NumValidators ==>
      ApplyToggles(w, ids).validators[i] == w.validators[i].(faulty := w.validators[i].faulty != (i in ids))
    decreases |ids|
  {
    if ids != [] {
      var v := ids[0];
      var w1 := ToggleFault(w, Some(v)).0;
      ToggleFaultEffect(w, Some(v));
      assert Distinct(ids[1..]) by {
        forall a, b | 0 <= a < b < |ids[1..]| ensures ids[1..][a] != ids[1..][b] {
          assert ids[1..][a] == ids[a + 1] && ids[1..][b] == ids[b + 1];
        }
      }
      ToggledFlags(w1, ids[1..]);
      forall i | 0 <= i < NumValidators
        ensures ApplyToggles(w, ids).validators[i] == w.validators[i].(faulty := w.validators[i].faulty != (i in ids))
      {
        assert i in ids <==> i == v || i in ids[1..] by {
          assert ids == [v] + ids[1..];
        }
      }
    }
  }

  /** `applyFaultFraction(frac)` for a slider value `frac`: a reset, then the
      planned toggles against the roster read back after the reset. The new
      state is the reset state in which exactly validators `0..k-1` are
      faulty. */
  method ApplyFaultFraction(w: World, frac: real) returns (w': World, k: nat)
    requires 0.0 <= frac <= 1.0
    ensures k == FaultyCount(NumValidators, frac)
    ensures WorldValid(w')
    ensures w' == Reset(w).(validators := w'.validators)
    ensures |w'.validators| == NumValidators
    ensures forall i :: 0 <= i < NumValidators ==> w'.validators[i] == Validator(i, i < k, false, None)
  {
    var w0 := Reset(w);
    ResetEffect(w);
    var faulty := seq(|w0.validators|, i requires 0 <= i < |w0.validators| => w0.validators[i].faulty);
    var toggles;
    k, toggles := FaultTogglePlan(faulty, frac);
    ToggledFlags(w0, toggles);
    w' := ApplyToggles(w0, toggles);
  }

  /** `0, 1, ..., k-1`: the toggles `runSweep` sends unconditionally. */
  function Range(k: nat): (r: seq<int>)
    ensures |r| == k && forall i :: 0 <= i < k ==> r[i] == i
  {
    if k == 0 then [] else Range(k - 1) + [k - 1]
  }

  /** An increasing sequence holding exactly `0..k-1` is `Range(k)`. */
  lemma {:induction false} IncreasingCover(t: seq<int>, k: nat)
    requires StrictlyIncreasing(t)
    requires forall x :: x in t <==> 0 <= x < k
    ensures t == Range(k)
  {
    if t == [] {
      assert 0 !in t;
    } else {
      var n := |t| - 1;
      var init := t[..n];
      CoverLast(t, k);
      CoverInit(t, k, init);
      IncreasingCover(init, k - 1);
      assert t == init + [t[n]];
      assert Range(k) == Range(k - 1) + [k - 1];
    }
  }

  /** The last element of such a sequence is `k - 1`. */
  lemma CoverLast(t: seq<int>, k: nat)
    requires StrictlyIncreasing(t) && t != []
    requires forall x :: x in t <==> 0 <= x < k
    ensures k > 0 && t[|t| - 1] == k - 1
  {
    var n := |t| - 1;
    assert t[n] in t;
    assert k - 1 in t;
    var j :| 0 <= j < |t| && t[j] == k - 1;
    if j < n {
      assert t[n] in t;
    }
  }

  /** Dropping that last element leaves exactly `0..k-2`. */
  lemma CoverInit(t: seq<int>, k: nat, init: seq<int>)
    requires StrictlyIncreasing(t) && t != [] && k > 0 && t[|t| - 1] == k - 1
    requires forall x :: x in t <==> 0 <= x < k
    requires init == t[..|t| - 1]
    ensures StrictlyIncreasing(init)
    ensures forall x :: x in init <==> 0 <= x < k - 1
  {
    var n := |t| - 1;
    forall x ensures x in init <==> 0 <= x < k - 1 {
      if x in init {
        var j :| 0 <= j < n && init[j] == x;
        assert t[j] == x && t[j] in t && t[j] < t[n];
      }
      if 0 <= x < k - 1 {
        assert x in t;
        var j :| 0 <= j < |t| && t[j] == x;
        assert j != n;
        assert init[j] == x;
      }
    }
  }

  /** After a reset no validator is faulty, so the slider's plan is exactly
      the toggles `0..k-1` that `runSweep` sends without looking. */
  lemma PlanAfterReset(faulty: seq<bool>, k: nat, toggles: seq<int>)
    requires k <= |faulty| && forall i :: 0 <= i < |faulty| ==> !faulty[i]
    requires StrictlyIncreasing(toggles)
    requires forall j :: 0 <= j < |toggles| ==> 0 <= toggles[j] < |faulty|
    requires forall i :: 0 <= i < |faulty| ==> (i in toggles <==> faulty[i] != (i < k))
    ensures toggles == Range(k)
  {
    forall x ensures x in toggles <==> 0 <= x < k {
      if x in toggles {
        var j :| 0 <= j < |toggles| && toggles[j] == x;
      }
    }
    IncreasingCover(toggles, k);
  }

  /** The fault fractions `0.0, 0.1, ..., 0.4` of the sweep put this many of
      the 19 validators at fault. */
  lemma SweepFaultCounts()
    ensures FaultyCount(NumValidators, 0.0) == 0 && FaultyCount(NumValidators, 0.1) == 1
    ensures FaultyCount(NumValidators, 0.2) == 3 && FaultyCount(NumValidators, 0.3) == 5
    ensures FaultyCount(NumValidators, 0.4) == 7
  {
  }

  // ---------------------------------------------------------------------
  // `/metrics` and the derived metrics of `runSweep`
  // ---------------------------------------------------------------------

  /** The fields of the `/metrics` reply the sweep reads. */
  datatype Report = Report(currentSlot: nat, totalBlocks: nat, totalFinalized: nat,
                           totalForks: nat, totalSlotsSimulated: nat, totalFinalizations: nat)

  /** `api_metrics`: block and finalized counts are taken from the chain,
      the other counters from the metrics. */
  function MetricsOf(w: World): Report {
    Report(w.currentSlot, |w.chain.Keys|, |set id | id in w.chain.Keys && w.chain[id].finalized|,
           w.metrics.totalForks, w.metrics.totalSlotsSimulated, w.metrics.totalFinalizations)
  }

  lemma SubsetCard<T>(a: set<T>, b: set<T>)
    requires a <= b
    ensures |a| <= |b|
  {
    assert b == a + (b - a);
  }

  /** In a valid state the finalized blocks are the finalizations counted so
      far plus genesis, and there are no more of them than blocks. */
  lemma ReportOfValid(w: World)
    requires WorldValid(w)
    ensures var r := MetricsOf(w);
      && r.totalFinalized == |FinalizedIds(w.chain)|
      && r.totalFinalized == r.totalFinalizations + 1
      && 1 <= r.totalFinalized <= r.totalBlocks
  {
    var fin := set id | id in w.chain.Keys && w.chain[id].finalized;
    assert fin == FinalizedIds(w.chain);
    SubsetCard(fin, w.chain.Keys);
  }

  /** `(total_finalized || 0) / (total_blocks || 1)`. */
  function FractionFinalized(m: Report): real {
    m.totalFinalized as real / (if m.totalBlocks == 0 then 1 else m.totalBlocks) as real
  }

  /** The fraction is the share of finalized blocks (the count itself when
      there is no block), and lies in `[0, 1]` when no more blocks are
      finalized than exist. */
  lemma FractionFinalizedMeaning(m: Report)
    ensures m.totalBlocks > 0 ==> FractionFinalized(m) * m.totalBlocks as real == m.totalFinalized as real
    ensures m.totalBlocks == 0 ==> FractionFinalized(m) == m.totalFinalized as real
    ensures m.totalFinalized <= m.totalBlocks ==> 0.0 <= FractionFinalized(m) <= 1.0
  {
    if m.totalBlocks > 0 {
      var f := FractionFinalized(m);
      var b := m.totalBlocks as real;
      assert f * b == m.totalFinalized as real;
      if m.totalFinalized <= m.totalBlocks {
        MulSign(f, b);
        MulSign(1.0 - f, b);
      }
    }
  }

  /** `total_finalizations > 0 ? total_slots_simulated / total_finalizations : null`. */
  function AvgTimeToFinality(m: Report): Option<real> {
    if m.totalFinalizations > 0 then Some(m.totalSlotsSimulated as real / m.totalFinalizations as real)
    else None
  }

  /** The average is missing exactly when nothing was finalized; otherwise it
      spreads the simulated slots evenly over the finalizations. */
  lemma AvgTimeToFinalityMeaning(m: Report)
    ensures AvgTimeToFinality(m).None? <==> m.totalFinalizations == 0
    ensures AvgTimeToFinality(m).Some? ==>
      && AvgTimeToFinality(m).value * m.totalFinalizations as real == m.totalSlotsSimulated as real
      && AvgTimeToFinality(m).value >= 0.0
  {
    if m.totalFinalizations > 0 {
      MulSign(AvgTimeToFinality(m).value, m.totalFinalizations as real);
    }
  }

  /** A JavaScript number as far as the charts care: finite, or `NaN` /
      `Infinity` from a division by zero. */
  datatype Num = Finite(value: real) | NotFinite

  /** JavaScript `a / b` on counts. */
  function Divide(a: nat, b: nat): Num {
    if b == 0 then NotFinite else Finite(a as real / b as real)
  }

  /** `(total_slots_simulated || 1) ? total_forks / total_slots_simulated : 0`
      as written: the guard value is `total_slots_simulated` or 1, never 0,
      so the division always runs. */
  function ReorgRateAsWritten(m: Report): Num {
    var guard := if m.totalSlotsSimulated != 0 then m.totalSlotsSimulated else 1;
    if guard != 0 then Divide(m.totalForks, m.totalSlotsSimulated) else Finite(0.0)
  }

  /** With no simulated slot the rate as written is `NaN` or `Infinity`,
      not the 0 the guard was meant to give. */
  lemma ReorgRateUnguarded(m: Report)
    requires m.totalSlotsSimulated == 0
    ensures ReorgRateAsWritten(m) == NotFinite
  {
  }

  /** Forks per simulated slot, 0 when no slot was simulated. */
  function ReorgRate(m: Report): real {
    if m.totalSlotsSimulated == 0 then 0.0 else m.totalForks as real / m.totalSlotsSimulated as real
  }

  /** The corrected rate is never negative, is the forks spread over the
      slots when there are slots, is 0 otherwise, and agrees with the rate as
      written whenever that one is finite. */
  lemma ReorgRateMeaning(m: Report)
    ensures ReorgRate(m) >= 0.0
    ensures m.totalSlotsSimulated > 0 ==> ReorgRate(m) * m.totalSlotsSimulated as real == m.totalForks as real
    ensures m.totalSlotsSimulated == 0 ==> ReorgRate(m) == 0.0
    ensures ReorgRateAsWritten(m).Finite? <==> m.totalSlotsSimulated > 0
    ensures m.totalSlotsSimulated > 0 ==> ReorgRateAsWritten(m) == Finite(ReorgRate(m))
  {
    if m.totalSlotsSimulated > 0 {
      MulSign(ReorgRate(m), m.totalSlotsSimulated as real);
    }
  }

  // ---------------------------------------------------------------------
  // The sweep (`runSweep`)
  // ---------------------------------------------------------------------

  /** The grid: `faultFractions` are `0.0, 0.1, ..., 0.4`, that is the
      tenths `0..NumFaults-1`; `maxDelays` are `0..NumDelays-1`. */
  const NumFaults: nat := 5
  const NumDelays: nat := 4
  const SlotsPerRun: nat := 80

  /** The ranges each attack slot's draws come from, with vote delays in
      `0..maxDelay`. */
  ghost predicate DrawsValid(ds: seq<SlotDraws>, maxDelay: int) {
    forall i :: 0 <= i < |ds| ==> DrawsFit(ds[i], maxDelay)
  }

  /** One entry of `results`: the cell, the `/metrics` reply and the three
      derived metrics. `fault` is the fault fraction in tenths. */
  datatype Record = Record(fault: nat, delay: int, metrics: Report, fractionFinalized: real,
                           avgTimeToFinality: Option<real>, reorgRate: real)

  /** The position of a cell in the fault-major order of the grid. */
  function CellOf(r: Record): int {
    r.fault * NumDelays + r.delay
  }

  /** What one finished run of the sweep records. */
  ghost predicate RecordValid(r: Record) {
    && r.fault < NumFaults && 0 <= r.delay < NumDelays
    && r.metrics.currentSlot == SlotsPerRun && r.metrics.totalSlotsSimulated == SlotsPerRun
    && r.metrics.totalFinalized == r.metrics.totalFinalizations + 1
    && r.metrics.totalFinalized <= r.metrics.totalBlocks
    && r.fractionFinalized == FractionFinalized(r.metrics)
    && r.avgTimeToFinality == AvgTimeToFinality(r.metrics)
    && r.reorgRate == ReorgRate(r.metrics)
    && ReorgRateAsWritten(r.metrics) == Finite(r.reorgRate)
  }

  /** The state a run of the sweep starts its attack from: reset, the three
      settings sent, and the first `k` validators toggled. */
  function ArmCell(w: World, k: nat, maxDelay: int, forkProb: real, ratio: real): World {
    ResetEffect(w);
    ApplyToggles(Configure(Reset(w), Some(maxDelay), Some(forkProb), Some(ratio)), Range(k))
  }

  /** The armed state is a valid fresh state with the sent settings in which
      exactly validators `0..k-1` are faulty, as after the slider with the
      same fraction. */
  lemma ArmCellEffect(w: World, k: nat, maxDelay: int, forkProb: real, ratio: real)
    requires k <= NumValidators
    ensures var a := ArmCell(w, k, maxDelay, forkProb, ratio);
      && WorldValid(a)
      && a.currentSlot == 0 && a.metrics == Metrics(0, 0, 0)
      && a.chain.Keys == {Genesis}
      && a.maxDelaySlots == maxDelay && a.forkAttackProb == forkProb && a.quorumRatio == ratio
      && |a.validators| == NumValidators
      && forall i :: 0 <= i < NumValidators ==> a.validators[i] == Validator(i, i < k, false, None)
  {
    ResetEffect(w);
    InitialWorldValid(w.maxDelaySlots, w.forkAttackProb, w.quorumRatio);
    var c := Configure(Reset(w), Some(maxDelay), Some(forkProb), Some(ratio));
    ConfigureEffect(Reset(w), Some(maxDelay), Some(forkProb), Some(ratio));
    assert Distinct(Range(k));
    ToggledFlags(c, Range(k));
    forall i | 0 <= i < NumValidators ensures (i in Range(k)) == (i < k) {
      if i < k {
        assert Range(k)[i] == i;
      }
    }
  }

  /** Arming forgets the state before it: `/reset` keeps only the settings,
      and the three settings are all sent again. */
  lemma ArmCellForgets(w: World, v: World, k: nat, maxDelay: int, forkProb: real, ratio: real)
    ensures ArmCell(w, k, maxDelay, forkProb, ratio) == ArmCell(v, k, maxDelay, forkProb, ratio)
  {
    assert Configure(Reset(w), Some(maxDelay), Some(forkProb), Some(ratio))
        == Configure(Reset(v), Some(maxDelay), Some(forkProb), Some(ratio));
  }

  /** The globals after one cell of the sweep: fault fraction `tenths`
      tenths, the settings sent, then 80 attack slots with the draws `draws`.
      By `ArmCellForgets` the state the cell starts from does not matter. */
  ghost function CellRun(tenths: nat, maxDelay: int, forkProb: real, ratio: real, draws: seq<SlotDraws>): (w': World)
    requires tenths < NumFaults && |draws| >= SlotsPerRun && DrawsValid(draws, maxDelay)
    ensures WorldValid(w') && w'.currentSlot == SlotsPerRun
    ensures w'.maxDelaySlots == maxDelay && w'.forkAttackProb == forkProb && w'.quorumRatio == ratio
  {
    var k := FaultyCount(NumValidators, tenths as real / 10.0);
    var a := ArmCell(InitialWorld(maxDelay, forkProb, ratio), k, maxDelay, forkProb, ratio);
    ArmCellEffect(InitialWorld(maxDelay, forkProb, ratio), k, maxDelay, forkProb, ratio);
    AttackRun(a, draws, SlotsPerRun).0
  }

  /** The record cell (`tenths`, `maxDelay`) pushes: the `/metrics` reply
      after its run and the three metrics derived from it. */
  ghost function CellRecord(tenths: nat, maxDelay: int, forkProb: real, ratio: real, draws: seq<SlotDraws>): (r: Record)
    requires tenths < NumFaults && 0 <= maxDelay < NumDelays
    requires |draws| >= SlotsPerRun && DrawsValid(draws, maxDelay)
    ensures r.fault == tenths && r.delay == maxDelay && RecordValid(r)
  {
    var w' := CellRun(tenths, maxDelay, forkProb, ratio, draws);
    var m := MetricsOf(w');
    ReportOfValid(w');
    ReorgRateMeaning(m);
    Record(tenths, maxDelay, m, FractionFinalized(m), AvgTimeToFinality(m), ReorgRate(m))
  }

  /** One cell of the sweep: the requests of one iteration of the inner loop
      with the draws of its 80 attack slots, and the record it pushes. */
  method RunCell(w: World, tenths: nat, maxDelay: int, forkProb: real, ratio: real, draws: seq<SlotDraws>)
    returns (w': World, rec: Record)
    requires tenths < NumFaults && 0 <= maxDelay < NumDelays
    requires |draws| >= SlotsPerRun && DrawsValid(draws, maxDelay)
    ensures WorldValid(w')
    ensures w' == CellRun(tenths, maxDelay, forkProb, ratio, draws)
    ensures rec.fault == tenths && rec.delay == maxDelay && rec.metrics == MetricsOf(w')
    ensures rec == CellRecord(tenths, maxDelay, forkProb, ratio, draws)
    ensures RecordValid(rec)
  {
    var k := FaultyCount(NumValidators, tenths as real / 10.0);
    ArmCellEffect(w, k, maxDelay, forkProb, ratio);
    var armed := ArmCell(w, k, maxDelay, forkProb, ratio);
    ArmCellForgets(w, InitialWorld(maxDelay, forkProb, ratio), k, maxDelay, forkProb, ratio);
    var ran, outcomes;
    w', ran, outcomes := SimulateAttack(armed, SlotsPerRun, draws);
    assert |outcomes| == SlotsPerRun;
    var m := MetricsOf(w');
    ReportOfValid(w');
    ReorgRateMeaning(m);
    rec := Record(tenths, maxDelay, m, FractionFinalized(m), AvgTimeToFinality(m), ReorgRate(m));
  }

  /** The cell positions of `results`, in order. */
  function Positions(results: seq<Record>): (ps: seq<int>)
    ensures |ps| == |results| && forall i :: 0 <= i < |results| ==> ps[i] == CellOf(results[i])
  {
    if results == [] then [] else Positions(results[..|results| - 1]) + [CellOf(results[|results| - 1])]
  }

  /** The cells below `n` that did not fail, in order. */
  function Kept(fails: seq<bool>, n: nat): (cs: seq<int>)
    requires n <= |fails|
    ensures StrictlyIncreasing(cs)
    ensures forall c :: c in cs <==> 0 <= c < n && !fails[c]
  {
    if n == 0 then []
    else
      var init := Kept(fails, n - 1);
      assert forall i :: 0 <= i < |init| ==> init[i] in init;
      assert forall c :: c in init ==> c < n - 1;
      if fails[n - 1] then init else init + [n - 1]
  }

  /** One draw sequence and one failure flag per cell of the grid; cell `c`
      has the delay `c % NumDelays` and at least 80 slots of draws within it. */
  ghost predicate GridValid(draws: seq<seq<SlotDraws>>, fails: seq<bool>) {
    && |draws| == |fails| == NumFaults * NumDelays
    && forall c :: 0 <= c < |draws| ==> |draws[c]| >= SlotsPerRun && DrawsValid(draws[c], c % NumDelays)
  }

  /** `results` once the first `d` cells of row `fi` have pushed their
      records onto `before`: each cell that did not fail pushes the record of
      its own run, in delay order. */
  ghost function RowPushed(
    forkProb: real, ratio: real, draws: seq<seq<SlotDraws>>, fails: seq<bool>, before: seq<Record>, fi: nat, d: nat
  ): seq<Record>
    requires GridValid(draws, fails) && fi < NumFaults && d <= NumDelays
  {
    if d == 0 then before
    else
      var c := fi * NumDelays + d - 1;
      var init := RowPushed(forkProb, ratio, draws, fails, before, fi, d - 1);
      CellDelay(fi, d - 1);
      if fails[c] then init else init + [CellRecord(fi, d - 1, forkProb, ratio, draws[c])]
  }

  /** The records of the first `f` rows of the grid, in fault-major order. */
  ghost function SweepRecords(
    forkProb: real, ratio: real, draws: seq<seq<SlotDraws>>, fails: seq<bool>, f: nat
  ): seq<Record>
    requires GridValid(draws, fails) && f <= NumFaults
  {
    if f == 0 then []
    else RowPushed(forkProb, ratio, draws, fails, SweepRecords(forkProb, ratio, draws, fails, f - 1), f - 1, NumDelays)
  }

  /** Cell `c` pushing `rec` unless it failed keeps the results those of
      exactly the kept cells, in order, each valid. */
  lemma PushKept(fails: seq<bool>, c: nat, init: seq<Record>, rec: Record)
    requires c < |fails| && Positions(init) == Kept(fails, c)
    requires forall i :: 0 <= i < |init| ==> RecordValid(init[i])
    requires CellOf(rec) == c && RecordValid(rec)
    ensures var rs := if fails[c] then init else init + [rec];
      && Positions(rs) == Kept(fails, c + 1)
      && forall i :: 0 <= i < |rs| ==> RecordValid(rs[i])
  {
    assert (init + [rec])[..|init|] == init;
  }

  /** The cells of a row that did not fail push valid records, extending the
      kept cells in order. */
  lemma {:induction false} RowPushedKept(
    forkProb: real, ratio: real, draws: seq<seq<SlotDraws>>, fails: seq<bool>, before: seq<Record>, fi: nat, d: nat
  )
    requires GridValid(draws, fails) && fi < NumFaults && d <= NumDelays
    requires Positions(before) == Kept(fails, fi * NumDelays)
    requires forall i :: 0 <= i < |before| ==> RecordValid(before[i])
    ensures var rs := RowPushed(forkProb, ratio, draws, fails, before, fi, d);
      && Positions(rs) == Kept(fails, fi * NumDelays + d)
      && forall i :: 0 <= i < |rs| ==> RecordValid(rs[i])
  {
    if d > 0 {
      RowPushedKept(forkProb, ratio, draws, fails, before, fi, d - 1);
      var c := fi * NumDelays + d - 1;
      CellDelay(fi, d - 1);
      var init := RowPushed(forkProb, ratio, draws, fails, before, fi, d - 1);
      PushKept(fails, c, init, CellRecord(fi, d - 1, forkProb, ratio, draws[c]));
    }
  }

  /** One pass of `runSweep`'s inner loop: the runs for fault fraction
      `fi` tenths and each maximum delay in turn. */
  method SweepRow(
    w: World, fi: nat, forkProb: real, ratio: real, draws: seq<seq<SlotDraws>>, fails: seq<bool>, results: seq<Record>
  ) returns (w': World, results': seq<Record>)
    requires fi < NumFaults && GridValid(draws, fails)
    requires results == SweepRecords(forkProb, ratio, draws, fails, fi)
    ensures results' == RowPushed(forkProb, ratio, draws, fails, results, fi, NumDelays)
    ensures results' == SweepRecords(forkProb, ratio, draws, fails, fi + 1)
  {
    w', results' := w, results;
    for di := 0 to NumDelays
      invariant results' == RowPushed(forkProb, ratio, draws, fails, results, fi, di)
    {
      w', results' := SweepCell(w', fi, di, forkProb, ratio, draws, fails, results, results');
    }
  }

  /** One iteration of that inner loop: cell `fi * NumDelays + di` pushes
      the record of its run unless its requests fail. */
  method SweepCell(
    w: World, fi: nat, di: nat, forkProb: real, ratio: real, draws: seq<seq<SlotDraws>>, fails: seq<bool>,
    ghost before: seq<Record>, results: seq<Record>
  ) returns (w': World, results': seq<Record>)
    requires fi < NumFaults && di < NumDelays && GridValid(draws, fails)
    requires results == RowPushed(forkProb, ratio, draws, fails, before, fi, di)
    ensures results' == RowPushed(forkProb, ratio, draws, fails, before, fi, di + 1)
  {
    var c := fi * NumDelays + di;
    CellDelay(fi, di);
    w', results' := w, results;
    if !fails[c] {
      var rec;
      w', rec := RunCell(w, fi, di, forkProb, ratio, draws[c]);
      results' := results + [rec];
    }
  }

  /** Row `f - 1` ends where row `f` starts. */
  lemma RowStartNext(f: nat)
    requires f > 0
    ensures (f - 1) * NumDelays + NumDelays == f * NumDelays
  { }

  /** Cell `fi * NumDelays + di` has the delay `di`. */
  lemma CellDelay(fi: nat, di: nat)
    requires di < NumDelays
    ensures (fi * NumDelays + di) % NumDelays == di && (fi * NumDelays + di) / NumDelays == fi
  {
  }

  /** `runSweep`'s grid loop: for each fault fraction and, inside, each
      maximum delay, one run. A cell whose requests fail (`fails[c]`) pushes
      nothing; every other cell pushes its record. The records come in
      fault-major grid order, one per cell that did not fail. */
  method RunSweep(w: World, forkProb: real, ratio: real, draws: seq<seq<SlotDraws>>, fails: seq<bool>)
    returns (w': World, results: seq<Record>)
    requires GridValid(draws, fails)
    ensures results == SweepRecords(forkProb, ratio, draws, fails, NumFaults)
    ensures Positions(results) == Kept(fails, |fails|)
    ensures forall r :: r in results ==> RecordValid(r)
  {
    w' := w;
    results := [];
    for fi := 0 to NumFaults
      invariant results == SweepRecords(forkProb, ratio, draws, fails, fi)
      invariant Positions(results) == Kept(fails, fi * NumDelays)
      invariant forall i :: 0 <= i < |results| ==> RecordValid(results[i])
    {
      RowPushedKept(forkProb, ratio, draws, fails, results, fi, NumDelays);
      RowStartNext(fi + 1);
      w', results := SweepRow(w', fi, forkProb, ratio, draws, fails, results);
    }
  }

  // ---------------------------------------------------------------------
  // The sweep charts (`drawSweepCharts`, `simpleLineChart`)
  // ---------------------------------------------------------------------

  /** `results.filter(r => r.delay === d)`. */
  function ByDelay(results: seq<Record>, d: int): (rs: seq<Record>)
    ensures forall r :: r in rs <==> r in results && r.delay == d
  {
    if results == [] then []
    else (if results[0].delay == d then [results[0]] else []) + ByDelay(results[1..], d)
  }

  /** The records are in strictly increasing grid order. */
  predicate CellsIncrease(rs: seq<Record>) {
    forall i, j :: 0 <= i < j < |rs| ==> CellOf(rs[i]) < CellOf(rs[j])
  }

  /** A record before records of later cells keeps the order. */
  lemma ConsIncrease(h: Record, rest: seq<Record>)
    requires CellsIncrease(rest) && forall r :: r in rest ==> CellOf(h) < CellOf(r)
    ensures CellsIncrease([h] + rest)
  {
    var all := [h] + rest;
    forall i, j | 0 <= i < j < |all| ensures CellOf(all[i]) < CellOf(all[j]) {
      assert all[j] == rest[j - 1] && all[j] in rest;
      if i > 0 {
        assert all[i] == rest[i - 1];
      }
    }
  }

  /** Filtering keeps the relative order of the records. */
  lemma {:induction false} ByDelayOrdered(results: seq<Record>, d: int)
    requires CellsIncrease(results)
    ensures CellsIncrease(ByDelay(results, d))
  {
    if results != [] {
      var h := results[0];
      var tail := results[1..];
      assert CellsIncrease(tail) by {
        forall i, j | 0 <= i < j < |tail| ensures CellOf(tail[i]) < CellOf(tail[j]) {
          assert tail[i] == results[i + 1] && tail[j] == results[j + 1];
        }
      }
      ByDelayOrdered(tail, d);
      var rest := ByDelay(tail, d);
      if h.delay == d {
        forall r | r in rest ensures CellOf(h) < CellOf(r) {
          var m :| 0 <= m < |tail| && tail[m] == r;
          assert results[m + 1] == r;
        }
        ConsIncrease(h, rest);
      }
    }
  }

  /** Each delay's series from a sweep is already in strictly increasing
      fault order, so the page's `sort` by fault leaves it as it is. */
  lemma SeriesSortedByFault(results: seq<Record>, d: int)
    requires CellsIncrease(results)
    requires forall r :: r in results ==> 0 <= r.delay < NumDelays
    ensures var rs := ByDelay(results, d);
      forall i, j :: 0 <= i < j < |rs| ==> rs[i].fault < rs[j].fault
  {
    ByDelayOrdered(results, d);
    var rs := ByDelay(results, d);
    forall i, j | 0 <= i < j < |rs| ensures rs[i].fault < rs[j].fault {
      assert rs[i] in rs && rs[j] in rs;
      assert CellOf(rs[i]) < CellOf(rs[j]);
    }
  }

  /** The records of a sweep hold increasing cell positions. */
  lemma SweepPositionsIncrease(results: seq<Record>, fails: seq<bool>)
    requires Positions(results) == Kept(fails, |fails|)
    ensures CellsIncrease(results)
  {
    forall i, j | 0 <= i < j < |results| ensures CellOf(results[i]) < CellOf(results[j]) {
      assert Positions(results)[i] < Positions(results)[j];
    }
  }

  /** The distinct values of `xs` in ascending order: the page's
      `[...new Set(xs)].sort((a, b) => a - b)`. */
  function AxisValues(xs: set<int>): (vs: seq<int>)
    ensures StrictlyIncreasing(vs) && forall v :: v in vs <==> v in xs
  {
    Ascending(xs)
  }

  /** The data of one chart for one delay's records: `fraction_finalized`,
      `avg_time_to_finality || 0`, or `reorg_rate`. */
  datatype Chart = FractionChart | AvgTimeChart | ReorgChart

  function ChartValue(c: Chart, r: Record): real {
    match c
    case FractionChart => r.fractionFinalized
    case AvgTimeChart => if r.avgTimeToFinality.Some? then r.avgTimeToFinality.value else 0.0
    case ReorgChart => r.reorgRate
  }

  /** One series: the chart's value for each record, in order. */
  function SeriesData(c: Chart, rs: seq<Record>): (data: seq<Option<real>>)
    ensures |data| == |rs| && forall i :: 0 <= i < |rs| ==> data[i] == Some(ChartValue(c, rs[i]))
  {
    if rs == [] then [] else SeriesData(c, rs[..|rs| - 1]) + [Some(ChartValue(c, rs[|rs| - 1]))]
  }

  /** The series of a chart: one per delay of `delays`, in order. */
  function ChartSeries(c: Chart, results: seq<Record>, delays: seq<int>): (series: seq<seq<Option<real>>>)
    ensures |series| == |delays|
    ensures forall k :: 0 <= k < |delays| ==> series[k] == SeriesData(c, ByDelay(results, delays[k]))
  {
    if delays == [] then []
    else ChartSeries(c, results, delays[..|delays| - 1]) + [SeriesData(c, ByDelay(results, delays[|delays| - 1]))]
  }

  /** The second chart shows 0 where there was no finalization, and no
      chart value of a sweep record is negative. */
  lemma ChartValuesOfRecord(c: Chart, r: Record)
    requires RecordValid(r)
    ensures ChartValue(c, r) >= 0.0
    ensures c == AvgTimeChart && r.metrics.totalFinalizations == 0 ==> ChartValue(c, r) == 0.0
  {
    FractionFinalizedMeaning(r.metrics);
    AvgTimeToFinalityMeaning(r.metrics);
    ReorgRateMeaning(r.metrics);
  }

  // The y-range ------------------------------------------------------------

  /** The values of `data` that are not null, in order. */
  function Present(data: seq<Option<real>>): (vs: seq<real>)
    ensures forall v :: v in vs <==> Some(v) in data
  {
    if data == [] then []
    else
      var init := Present(data[..|data| - 1]);
      assert forall x :: x in data <==> x in data[..|data| - 1] || x == data[|data| - 1];
      if data[|data| - 1].Some? then init + [data[|data| - 1].value] else init
  }

  /** The values of all series that are not null, series by series. */
  function Values(series: seq<seq<Option<real>>>): seq<real> {
    if series == [] then [] else Values(series[..|series| - 1]) + Present(series[|series| - 1])
  }

  lemma ValuesSnoc(series: seq<seq<Option<real>>>, k: int)
    requires 0 <= k < |series|
    ensures Values(series[..k + 1]) == Values(series[..k]) + Present(series[k])
  {
    assert series[..k + 1][..k] == series[..k];
  }

  /** Each value of each series is among `Values`. */
  lemma {:induction false} ValuesMembers(series: seq<seq<Option<real>>>, k: int, v: real)
    requires 0 <= k < |series| && Some(v) in series[k]
    ensures v in Values(series)
  {
    var n := |series| - 1;
    if k < n {
      assert series[..n][k] == series[k];
      ValuesMembers(series[..n], k, v);
    }
  }

  /** The least of `vs`, or none (`Infinity`) when `vs` is empty. */
  function Lowest(vs: seq<real>): (m: Option<real>)
    ensures m.None? <==> vs == []
    ensures m.Some? ==> m.value in vs && forall v :: v in vs ==> m.value <= v
  {
    if vs == [] then None
    else
      var init := Lowest(vs[..|vs| - 1]);
      var last := vs[|vs| - 1];
      assert forall v :: v in vs <==> v in vs[..|vs| - 1] || v == last;
      if init.Some? && init.value <= last then init else Some(last)
  }

  /** The greatest of `vs`, or none (`-Infinity`) when `vs` is empty. */
  function Highest(vs: seq<real>): (m: Option<real>)
    ensures m.None? <==> vs == []
    ensures m.Some? ==> m.value in vs && forall v :: v in vs ==> v <= m.value
  {
    if vs == [] then None
    else
      var init := Highest(vs[..|vs| - 1]);
      var last := vs[|vs| - 1];
      assert forall v :: v in vs <==> v in vs[..|vs| - 1] || v == last;
      if init.Some? && init.value >= last then init else Some(last)
  }

  /** `Math.min(ymin, v)` with `Infinity` as none. */
  function Lower(m: Option<real>, v: real): Option<real> {
    if m.Some? && m.value <= v then m else Some(v)
  }

  /** `Math.max(ymax, v)` with `-Infinity` as none. */
  function Higher(m: Option<real>, v: real): Option<real> {
    if m.Some? && m.value >= v then m else Some(v)
  }

  /** What `simpleLineChart` makes of the values: their least and greatest,
      `[0, 1]` when there is none, and one unit up from the value when all
      values are equal. */
  ghost predicate YRangeOf(series: seq<seq<Option<real>>>, ymin: real, ymax: real) {
    var vs := Values(series);
    && ymin < ymax
    && (vs == [] ==> ymin == 0.0 && ymax == 1.0)
    && (vs != [] ==>
          && ymin in vs && (forall v :: v in vs ==> ymin <= v <= ymax)
          && (ymax in vs || (ymax == ymin + 1.0 && forall v :: v in vs ==> v == ymin)))
  }

  /** The fold of the inner loop over one series' data. */
  method FoldData(lo: Option<real>, hi: Option<real>, data: seq<Option<real>>, ghost seen: seq<real>)
    returns (lo': Option<real>, hi': Option<real>)
    requires lo == Lowest(seen) && hi == Highest(seen)
    ensures lo' == Lowest(seen + Present(data)) && hi' == Highest(seen + Present(data))
  {
    lo', hi' := lo, hi;
    assert seen + Present(data[..0]) == seen;
    for i := 0 to |data|
      invariant lo' == Lowest(seen + Present(data[..i])) && hi' == Highest(seen + Present(data[..i]))
    {
      assert data[..i + 1][..i] == data[..i];
      var before := seen + Present(data[..i]);
      if data[i].Some? {
        var v := data[i].value;
        assert (before + [v])[..|before|] == before;
        AppendAssoc(seen, Present(data[..i]), [v]);
        lo' := Lower(lo', v);
        hi' := Higher(hi', v);
      }
    }
    assert data[..|data|] == data;
  }

  /** The y-range loop of `simpleLineChart`: `ymin`/`ymax` over every value
      that is not null, then the two fixes for no value and for one value. */
  method YRange(series: seq<seq<Option<real>>>) returns (ymin: real, ymax: real)
    ensures YRangeOf(series, ymin, ymax)
  {
    var lo: Option<real> := None;
    var hi: Option<real> := None;
    for k := 0 to |series|
      invariant lo == Lowest(Values(series[..k])) && hi == Highest(Values(series[..k]))
    {
      ValuesSnoc(series, k);
      lo, hi := FoldData(lo, hi, series[k], Values(series[..k]));
    }
    assert series[..|series|] == series;
    if lo.None? {
      ymin, ymax := 0.0, 1.0;
    } else {
      ymin, ymax := lo.value, hi.value;
      if ymin == ymax {
        ymax := ymin + 1.0;
      }
    }
  }

  // Plotting ---------------------------------------------------------------

  /** The canvas of a sweep chart and its margins. */
  const ChartWidth: real := 420.0
  const ChartHeight: real := 240.0
  const MarginLeft: real := 40.0
  const MarginRight: real := 14.0
  const MarginTop: real := 24.0
  const MarginBottom: real := 30.0
  const PlotWidth: real := ChartWidth - MarginLeft - MarginRight
  const PlotHeight: real := ChartHeight - MarginTop - MarginBottom

  /** `m.t + ((ymax - val) / (ymax - ymin)) * plotH`. */
  function PlotY(val: real, ymin: real, ymax: real): real
    requires ymin < ymax
  {
    MarginTop + ((ymax - val) / (ymax - ymin)) * PlotHeight
  }

  /** `s.data[i] == null ? ymin : s.data[i]`. */
  function PointValue(p: Option<real>, ymin: real): real {
    if p.Some? then p.value else ymin
  }

  /** A value within the range is drawn within the plot area, the top of
      the range at its top edge and the bottom at its bottom edge; higher
      values are drawn higher up. */
  lemma PlotYWithin(val: real, ymin: real, ymax: real)
    requires ymin < ymax && ymin <= val <= ymax
    ensures MarginTop <= PlotY(val, ymin, ymax) <= MarginTop + PlotHeight
    ensures PlotY(ymax, ymin, ymax) == MarginTop && PlotY(ymin, ymin, ymax) == MarginTop + PlotHeight
  {
    var span := ymax - ymin;
    var t := (ymax - val) / span;
    assert t * span == ymax - val;
    MulSign(t, span);
    MulSign(1.0 - t, span);
  }

  /** Every point of a chart, null or not, lies within the plot area; a
      null point sits on its bottom edge. */
  lemma PointsInPlot(series: seq<seq<Option<real>>>, ymin: real, ymax: real, k: int, i: int)
    requires YRangeOf(series, ymin, ymax)
    requires 0 <= k < |series| && 0 <= i < |series[k]|
    ensures var y := PlotY(PointValue(series[k][i], ymin), ymin, ymax);
      MarginTop <= y <= MarginTop + PlotHeight
    ensures series[k][i].None? ==> PlotY(PointValue(series[k][i], ymin), ymin, ymax) == MarginTop + PlotHeight
  {
    var p := series[k][i];
    if p.Some? {
      assert p in series[k];
      ValuesMembers(series, k, p.value);
      PlotYWithin(p.value, ymin, ymax);
    } else {
      PlotYWithin(ymin, ymin, ymax);
    }
  }

  /** The y-tick `i` of 4: its label `ymax - (i/4)*(ymax-ymin)` and its grid
      line `m.t + (i/4)*plotH`. */
  function TickValue(i: int, ymin: real, ymax: real): real {
    ymax - (i as real / 4.0) * (ymax - ymin)
  }

  function TickY(i: int): real {
    MarginTop + (i as real / 4.0) * PlotHeight
  }

  /** Each grid line is drawn where its label's value would be plotted. */
  lemma TicksMatchPlot(i: int, ymin: real, ymax: real)
    requires ymin < ymax
    ensures PlotY(TickValue(i, ymin, ymax), ymin, ymax) == TickY(i)
  {
    var span := ymax - ymin;
    var t := i as real / 4.0;
    assert ymax - TickValue(i, ymin, ymax) == t * span;
    assert (t * span) / span == t;
  }

  /** `m.l + (i / (n - 1 || 1)) * plotW`: the x of point (or label) `i` of `n`. */
  function PlotX(i: int, n: int): real {
    MarginLeft + (i as real / (if n - 1 == 0 then 1 else n - 1) as real) * PlotWidth
  }

  /** The points spread from the left to the right edge of the plot area. */
  lemma PlotXWithin(i: int, n: int)
    requires 0 <= i < n
    ensures MarginLeft <= PlotX(i, n) <= MarginLeft + PlotWidth
    ensures PlotX(0, n) == MarginLeft
    ensures n > 1 ==> PlotX(n - 1, n) == MarginLeft + PlotWidth
  {
    var d := (if n - 1 == 0 then 1 else n - 1) as real;
    var t := i as real / d;
    assert t * d == i as real;
    assert (1.0 - t) * d == d - i as real;
    MulSign(t, d);
    MulSign(1.0 - t, d);
    assert 0.0 <= t <= 1.0;
    UnitScale(t, PlotWidth);
    if n > 1 {
      DivSelf((n - 1) as real);
    }
  }

  lemma DivSelf(x: real)
    requires x > 0.0
    ensures x / x == 1.0
  {
  }

  lemma UnitScale(t: real, w: real)
    requires 0.0 <= t <= 1.0 && w >= 0.0
    ensures 0.0 <= t * w <= w
  {
    assert w - t * w == (1.0 - t) * w;
  }

  /** Where a series' point `i` is drawn as written: by its index within
      its own series, `m.l + (i / (s.data.length - 1 || 1)) * plotW`. */
  function PointXAsWritten(rs: seq<Record>, i: int): real {
    PlotX(i, |rs|)
  }

  /** The x-axis label of fault value `faults[j]`, `xLabels` being one label
      per fault. */
  function LabelX(faults: seq<int>, j: int): real {
    PlotX(j, |faults|)
  }

  /** When a cell of the sweep failed, the series of its delay is one point
      short: with labels for faults `0..4` and a delay series holding faults
      0, 2, 3 and 4, the point for fault 0.2 is drawn a third of the way
      along the axis, left of the label "0.20", which sits half way along. */
  lemma MisalignedPoint(rs: seq<Record>)
    requires |rs| == 4 && rs[1].fault == 2
    ensures var faults := [0, 1, 2, 3, 4];
      faults[2] == rs[1].fault && PointXAsWritten(rs, 1) != LabelX(faults, 2)
  {
    assert PointXAsWritten(rs, 1) == MarginLeft + PlotWidth / 3.0;
    assert LabelX([0, 1, 2, 3, 4], 2) == MarginLeft + PlotWidth / 2.0;
  }

  /** The position of `f` among the increasing `faults`. */
  function IndexOf(faults: seq<int>, f: int): (j: int)
    requires f in faults
    ensures 0 <= j < |faults| && faults[j] == f
  {
    if faults[0] == f then 0 else 1 + IndexOf(faults[1..], f)
  }

  /** A record's point drawn above the label of its own fault. */
  function PointX(faults: seq<int>, r: Record): real
    requires r.fault in faults
  {
    LabelX(faults, IndexOf(faults, r.fault))
  }

  /** The corrected point sits exactly on its fault's label; and when the
      series has a record for every fault, in order, it is where the page
      draws it. */
  lemma PointXMeaning(faults: seq<int>, rs: seq<Record>, i: int)
    requires StrictlyIncreasing(faults)
    requires 0 <= i < |rs| && rs[i].fault in faults
    ensures forall j :: 0 <= j < |faults| && faults[j] == rs[i].fault ==> PointX(faults, rs[i]) == LabelX(faults, j)
    ensures |rs| == |faults| && (forall k :: 0 <= k < |rs| ==> rs[k].fault == faults[k]) ==>
      PointX(faults, rs[i]) == PointXAsWritten(rs, i)
  {
    var j0 := IndexOf(faults, rs[i].fault);
  }

  /** The series palette. */
  const Palette: seq<string> := ["#ff8c00", "#1e90ff", "#ff69b4", "#7fff00", "#ffd700", "#00ffff"]

  /** `colors[si % colors.length]`. */
  function SeriesColour(si: nat): (c: string)
    ensures c in Palette
  {
    Palette[si % |Palette|]
  }

  /** Any six consecutive series have different colours; the four delay
      series of the sweep are all told apart. */
  lemma ColoursDistinct(a: nat, b: nat)
    requires a < b < a + |Palette|
    ensures SeriesColour(a) != SeriesColour(b)
  {
    assert a % 6 != b % 6;
  }
}
