/** Link capacity estimation from per-slot link traffic: the no-buffer
    capacity is the traffic peak; with a small FIFO buffer the capacity is
    the result of a bounded bisection over simulated buffer runs, kept
    feasible for the loss tolerance at every step. */
module CapacityEstimation {
  import opened Wrappers
  import opened Seqs
  import opened Sorting
  import opened Strings
  import opened Frames
  import opened LinkAggregation

  const SymbolsPerSlot := 14
  const MaxIterations := 100
  /** The default `buffer_symbols` and `loss_tolerance` of the buffered estimates. */
  const DefaultBufferSymbols := 4
  const DefaultLossTolerance := 0.01

  /** The `ValueError` message for a frame without link columns: the
      expected suffix, then the frame's columns as a Python list. */
  function NoLinkColumnsMessage(columns: seq<string>): string
  {
    "no link columns found. expected columns ending with '_bits'. found columns: " + ListRepr(columns)
  }

  // ---------------------------------------------------------------------------
  // The buffer simulation
  // ---------------------------------------------------------------------------

  /** `capacity_bits_per_slot * (buffer_symbols / SYMBOLS_PER_SLOT)`: what the
      link drains in `buffer_symbols` symbol times. */
  function BufferSizeBits(capacity: real, bufferSymbols: int): real
  {
    capacity * (bufferSymbols as real / SymbolsPerSlot as real)
  }

  lemma BufferSizeNonNegative(capacity: real, bufferSymbols: int)
    requires capacity >= 0.0 && bufferSymbols >= 0
    ensures BufferSizeBits(capacity, bufferSymbols) >= 0.0
  {
    var f := bufferSymbols as real / SymbolsPerSlot as real;
    assert f >= 0.0;
  }

  /** `total_bits - min(total_bits, capacity)`: the bits left over once the
      link has sent what it can; that is the excess of the arrivals over the
      capacity, or nothing. */
  function Remaining(occupancy: real, slotTraffic: real, capacity: real): (r: real)
    ensures r >= 0.0
    ensures occupancy + slotTraffic > capacity ==> r == occupancy + slotTraffic - capacity
    ensures occupancy + slotTraffic <= capacity ==> r == 0.0
  {
    var totalBits := occupancy + slotTraffic;
    var transmitted := if totalBits <= capacity then totalBits else capacity;
    totalBits - transmitted
  }

  /** `buffer_occupancy`, `loss_slots` and `max_buffer_usage` of the simulation loop. */
  datatype BufferState = BufferState(occupancy: real, lossSlots: nat, maxUsage: real)

  /** One slot: traffic arrives, the link sends up to its capacity, and a
      carry-over larger than the buffer is a loss slot that leaves the buffer full. */
  function Step(st: BufferState, slotTraffic: real, capacity: real, bufferSize: real): BufferState
  {
    var remaining := Remaining(st.occupancy, slotTraffic, capacity);
    var overflow := remaining > bufferSize;
    var occupancy := if overflow then bufferSize else remaining;
    BufferState(occupancy,
                st.lossSlots + (if overflow then 1 else 0),
                if st.maxUsage >= occupancy then st.maxUsage else occupancy)
  }

  /** The state after the slots of `traffic`, from an empty buffer. */
  function Run(traffic: seq<real>, capacity: real, bufferSize: real): BufferState
  {
    if |traffic| == 0 then BufferState(0.0, 0, 0.0)
    else Step(Run(traffic[..|traffic| - 1], capacity, bufferSize), traffic[|traffic| - 1], capacity, bufferSize)
  }

  /** The dictionary `simulate_buffer` returns. */
  datatype SimulationResult = SimulationResult(
    totalSlots: nat, lossSlots: nat, lossRatio: real, maxBufferUsage: real, bufferSizeBits: real)

  function Simulation(traffic: seq<real>, capacity: real, bufferSymbols: int): (r: SimulationResult)
    ensures r.totalSlots == |traffic| && r.lossSlots <= r.totalSlots
    ensures r.lossRatio == 0.0 <==> r.lossSlots == 0
  {
    var bufferSize := BufferSizeBits(capacity, bufferSymbols);
    RunBounds(traffic, capacity, bufferSize);
    var st := Run(traffic, capacity, bufferSize);
    SimulationResult(|traffic|, st.lossSlots,
                     if |traffic| > 0 then st.lossSlots as real / |traffic| as real else 0.0,
                     st.maxUsage, bufferSize)
  }

  /** `simulate_buffer`. */
  method SimulateBuffer(traffic: seq<real>, capacity: real, bufferSymbols: int := DefaultBufferSymbols) returns (r: SimulationResult)
    ensures r == Simulation(traffic, capacity, bufferSymbols)
  {
    var bufferSize := BufferSizeBits(capacity, bufferSymbols);
    var occupancy := 0.0;
    var lossSlots: nat := 0;
    var maxUsage := 0.0;
    for i := 0 to |traffic|
      invariant BufferState(occupancy, lossSlots, maxUsage) == Run(traffic[..i], capacity, bufferSize)
    {
      assert traffic[..i + 1][..i] == traffic[..i];
      var totalBits := occupancy + traffic[i];
      var transmitted := if totalBits <= capacity then totalBits else capacity;
      var remaining := totalBits - transmitted;
      if remaining > bufferSize {
        lossSlots := lossSlots + 1;
        occupancy := bufferSize;
      } else {
        occupancy := remaining;
      }
      maxUsage := if maxUsage >= occupancy then maxUsage else occupancy;
    }
    assert traffic[..|traffic|] == traffic;
    var totalSlots := |traffic|;
    r := SimulationResult(totalSlots, lossSlots,
                          if totalSlots > 0 then lossSlots as real / totalSlots as real else 0.0,
                          maxUsage, bufferSize);
  }

  /** Slot `i` is a loss slot exactly when the carry-over after sending at
      capacity exceeds the buffer; the buffer then holds the smaller of the
      two. */
  lemma SlotLoss(traffic: seq<real>, capacity: real, bufferSize: real, i: int)
    requires 0 <= i < |traffic|
    ensures var before := Run(traffic[..i], capacity, bufferSize);
      var after := Run(traffic[..i + 1], capacity, bufferSize);
      var remaining := Remaining(before.occupancy, traffic[i], capacity);
      && (after.lossSlots == before.lossSlots + 1 <==> remaining > bufferSize)
      && (after.lossSlots == before.lossSlots <==> remaining <= bufferSize)
      && after.occupancy == (if remaining > bufferSize then bufferSize else remaining)
  {
    assert traffic[..i + 1][..i] == traffic[..i];
  }

  /** At most one loss per slot; with a buffer of non-negative size, the
      occupancy and its peak stay within the buffer. */
  lemma {:induction false} RunBounds(traffic: seq<real>, capacity: real, bufferSize: real)
    ensures Run(traffic, capacity, bufferSize).lossSlots <= |traffic|
    ensures bufferSize >= 0.0 ==>
      var st := Run(traffic, capacity, bufferSize);
      0.0 <= st.occupancy <= st.maxUsage <= bufferSize
  {
    if |traffic| > 0 {
      RunBounds(traffic[..|traffic| - 1], capacity, bufferSize);
    }
  }

  /** `maxUsage` is the peak of the occupancies after each slot: none exceeds
      it, and it is one of them unless it is still the initial 0. */
  lemma {:induction false} RunPeak(traffic: seq<real>, capacity: real, bufferSize: real)
    ensures forall i | 0 < i <= |traffic| ::
      Run(traffic[..i], capacity, bufferSize).occupancy <= Run(traffic, capacity, bufferSize).maxUsage
    ensures var peak := Run(traffic, capacity, bufferSize).maxUsage;
      peak == 0.0 || exists i | 0 < i <= |traffic| :: Run(traffic[..i], capacity, bufferSize).occupancy == peak
  {
    if |traffic| > 0 {
      var n := |traffic| - 1;
      var init := traffic[..n];
      RunPeak(init, capacity, bufferSize);
      assert traffic[..n + 1] == traffic;
      forall i | 0 < i <= n ensures traffic[..i] == init[..i] { }
      var before := Run(init, capacity, bufferSize);
      var after := Run(traffic, capacity, bufferSize);
      if after.maxUsage != before.maxUsage {
        assert Run(traffic[..n + 1], capacity, bufferSize).occupancy == after.maxUsage;
      } else if before.maxUsage != 0.0 {
        var i :| 0 < i <= n && Run(init[..i], capacity, bufferSize).occupancy == before.maxUsage;
        assert Run(traffic[..i], capacity, bufferSize).occupancy == after.maxUsage;
      }
    }
  }

  /** A link at least as fast as every slot's traffic never queues anything. */
  lemma {:induction false} RunAtPeak(traffic: seq<real>, capacity: real, bufferSize: real)
    requires bufferSize >= 0.0
    requires forall i :: 0 <= i < |traffic| ==> traffic[i] <= capacity
    ensures Run(traffic, capacity, bufferSize) == BufferState(0.0, 0, 0.0)
  {
    if |traffic| > 0 {
      RunAtPeak(traffic[..|traffic| - 1], capacity, bufferSize);
    }
  }

  /** The result of a simulation with a non-negative capacity: the loss
      count and ratio, and the buffer usage within the buffer size. */
  lemma SimulationBounds(traffic: seq<real>, capacity: real, bufferSymbols: int)
    requires capacity >= 0.0 && bufferSymbols >= 0
    ensures var r := Simulation(traffic, capacity, bufferSymbols);
      && r.totalSlots == |traffic|
      && r.lossSlots <= r.totalSlots
      && 0.0 <= r.lossRatio <= 1.0
      && (r.totalSlots > 0 ==> r.lossRatio * r.totalSlots as real == r.lossSlots as real)
      && (r.totalSlots == 0 ==> r.lossRatio == 0.0)
      && 0.0 <= r.maxBufferUsage <= r.bufferSizeBits
  {
    var bufferSize := BufferSizeBits(capacity, bufferSymbols);
    BufferSizeNonNegative(capacity, bufferSymbols);
    RunBounds(traffic, capacity, bufferSize);
    var st := Run(traffic, capacity, bufferSize);
    if |traffic| > 0 {
      FractionBounds(st.lossSlots, |traffic|);
    }
  }

  /** The buffer occupancy after the first `i` slots of a simulation. */
  function OccupancyAfter(traffic: seq<real>, capacity: real, bufferSymbols: int, i: int): real
    requires 0 <= i <= |traffic|
  {
    Run(traffic[..i], capacity, BufferSizeBits(capacity, bufferSymbols)).occupancy
  }

  /** `max_buffer_usage` is the peak buffer occupancy over the slots: no
      occupancy exceeds it, and it is reached after some slot unless it is 0. */
  lemma SimulationPeakUsage(traffic: seq<real>, capacity: real, bufferSymbols: int)
    ensures var r := Simulation(traffic, capacity, bufferSymbols);
      && (forall i | 0 < i <= |traffic| :: OccupancyAfter(traffic, capacity, bufferSymbols, i) <= r.maxBufferUsage)
      && (r.maxBufferUsage == 0.0 ||
          exists i | 0 < i <= |traffic| :: OccupancyAfter(traffic, capacity, bufferSymbols, i) == r.maxBufferUsage)
  {
    var bufferSize := BufferSizeBits(capacity, bufferSymbols);
    RunPeak(traffic, capacity, bufferSize);
    var peak := Run(traffic, capacity, bufferSize).maxUsage;
    if peak != 0.0 {
      var i :| 0 < i <= |traffic| && Run(traffic[..i], capacity, bufferSize).occupancy == peak;
      assert OccupancyAfter(traffic, capacity, bufferSymbols, i) == peak;
    }
  }

  /** A capacity no slot's traffic exceeds loses no slot and never queues. */
  lemma SimulationAtPeak(traffic: seq<real>, capacity: real, bufferSymbols: int)
    requires capacity >= 0.0 && bufferSymbols >= 0
    requires forall i :: 0 <= i < |traffic| ==> traffic[i] <= capacity
    ensures var r := Simulation(traffic, capacity, bufferSymbols);
      r.lossSlots == 0 && r.lossRatio == 0.0 && r.maxBufferUsage == 0.0
  {
    BufferSizeNonNegative(capacity, bufferSymbols);
    RunAtPeak(traffic, capacity, BufferSizeBits(capacity, bufferSymbols));
  }

  // ---------------------------------------------------------------------------
  // The minimum-capacity search
  // ---------------------------------------------------------------------------

  /** The state of the bisection loop: `min_capacity`, `max_capacity` and `iterations`. */
  datatype SearchState = SearchState(lo: real, hi: real, iterations: nat)

  /** The `while` loop of `find_minimum_capacity` from the state `st`: halve
      the interval, keeping the half whose upper end is a capacity meeting
      the tolerance, until it is no wider than `precision` or 100 rounds
      have been done. */
  function Bisect(traffic: seq<real>, bufferSymbols: int, lossTolerance: real, precision: real,
                  st: SearchState): (e: SearchState)
    requires st.iterations <= MaxIterations
    ensures e.iterations <= MaxIterations
    decreases MaxIterations - st.iterations
  {
    if st.hi - st.lo > precision && st.iterations < MaxIterations then
      var mid := (st.lo + st.hi) / 2.0;
      if Simulation(traffic, mid, bufferSymbols).lossRatio <= lossTolerance
      then Bisect(traffic, bufferSymbols, lossTolerance, precision, SearchState(st.lo, mid, st.iterations + 1))
      else Bisect(traffic, bufferSymbols, lossTolerance, precision, SearchState(mid, st.hi, st.iterations + 1))
    else st
  }

  /** The search's starting state: half the mean but at least 1, the peak,
      and no round done. */
  function SearchStart(traffic: seq<real>): (st: SearchState)
    requires |traffic| > 0
    ensures st.lo >= 1.0 && st.hi == Max(traffic) && st.iterations == 0
  {
    var half := Mean(traffic) * 0.5;
    SearchState(if half >= 1.0 then half else 1.0, Max(traffic), 0)
  }

  /** The whole search of `find_minimum_capacity` on non-empty traffic. */
  function Search(traffic: seq<real>, bufferSymbols: int, lossTolerance: real): SearchState
    requires |traffic| > 0
  {
    Bisect(traffic, bufferSymbols, lossTolerance, Max(traffic) * 0.001, SearchStart(traffic))
  }

  /** The capacity `find_minimum_capacity` returns: 0 for no traffic, else
      the search's final upper bound, which is at most the peak and either
      the peak or at least 1. */
  function MinimumCapacity(traffic: seq<real>, bufferSymbols: int, lossTolerance: real): (c: real)
    ensures |traffic| == 0 ==> c == 0.0
    ensures |traffic| > 0 ==> c <= Max(traffic) && (c == Max(traffic) || c >= 1.0)
  {
    if |traffic| == 0 then 0.0
    else
      SearchBounds(traffic, bufferSymbols, lossTolerance, Search(traffic, bufferSymbols, lossTolerance));
      Search(traffic, bufferSymbols, lossTolerance).hi
  }

  /** `find_minimum_capacity`. */
  method FindMinimumCapacity(traffic: seq<real>, bufferSymbols: int := DefaultBufferSymbols,
                             lossTolerance: real := DefaultLossTolerance) returns (capacity: real)
    ensures capacity == MinimumCapacity(traffic, bufferSymbols, lossTolerance)
  {
    if |traffic| == 0 {
      return 0.0;
    }
    var minCapacity := Sum(traffic) / |traffic| as real;
    var maxCapacity := Max(traffic);
    minCapacity := if minCapacity * 0.5 >= 1.0 then minCapacity * 0.5 else 1.0;
    var precision := maxCapacity * 0.001;
    var iterations: nat := 0;
    while maxCapacity - minCapacity > precision && iterations < MaxIterations
      invariant iterations <= MaxIterations
      invariant Bisect(traffic, bufferSymbols, lossTolerance, precision, SearchState(minCapacity, maxCapacity, iterations))
        == Search(traffic, bufferSymbols, lossTolerance)
      decreases MaxIterations - iterations
    {
      var midCapacity := (minCapacity + maxCapacity) / 2.0;
      var result := SimulateBuffer(traffic, midCapacity, bufferSymbols);
      if result.lossRatio <= lossTolerance {
        maxCapacity := midCapacity;
      } else {
        minCapacity := midCapacity;
      }
      iterations := iterations + 1;
    }
    capacity := maxCapacity;
  }

  /** The bisection never raises its upper bound and, from a lower bound of
      at least 1, only moves it to a midpoint above the lower bound; it stops
      within the iteration limit, with the interval no wider than the
      precision unless the limit was reached. */
  lemma {:induction false} BisectBounds(traffic: seq<real>, bufferSymbols: int, lossTolerance: real,
                                        precision: real, st: SearchState, peak: real)
    requires st.iterations <= MaxIterations
    requires 1.0 <= st.lo && st.hi <= peak && precision == peak * 0.001
    ensures var e := Bisect(traffic, bufferSymbols, lossTolerance, precision, st);
      && e.hi <= st.hi && (e.hi == st.hi || st.lo < e.hi)
      && st.lo <= e.lo
      && st.iterations <= e.iterations
      && (e.hi - e.lo <= precision || e.iterations == MaxIterations)
    decreases MaxIterations - st.iterations
  {
    if st.hi - st.lo > precision && st.iterations < MaxIterations {
      assert st.lo < st.hi;
      var mid := (st.lo + st.hi) / 2.0;
      BisectBounds(traffic, bufferSymbols, lossTolerance, precision, SearchState(st.lo, mid, st.iterations + 1), peak);
      BisectBounds(traffic, bufferSymbols, lossTolerance, precision, SearchState(mid, st.hi, st.iterations + 1), peak);
    }
  }

  /** The upper bound stays a capacity that meets the tolerance, and the
      lower bound one that does not, unless it is still the starting one. */
  lemma {:induction false} BisectFeasible(traffic: seq<real>, bufferSymbols: int, lossTolerance: real,
                                          precision: real, st: SearchState, low: real)
    requires st.iterations <= MaxIterations
    requires st.lo == low || Simulation(traffic, st.lo, bufferSymbols).lossRatio > lossTolerance
    ensures var e := Bisect(traffic, bufferSymbols, lossTolerance, precision, st);
      && (Simulation(traffic, st.hi, bufferSymbols).lossRatio <= lossTolerance ==>
            Simulation(traffic, e.hi, bufferSymbols).lossRatio <= lossTolerance)
      && (e.lo == low || Simulation(traffic, e.lo, bufferSymbols).lossRatio > lossTolerance)
    decreases MaxIterations - st.iterations
  {
    if st.hi - st.lo > precision && st.iterations < MaxIterations {
      var mid := (st.lo + st.hi) / 2.0;
      if Simulation(traffic, mid, bufferSymbols).lossRatio <= lossTolerance {
        BisectFeasible(traffic, bufferSymbols, lossTolerance, precision, SearchState(st.lo, mid, st.iterations + 1), low);
      } else {
        BisectFeasible(traffic, bufferSymbols, lossTolerance, precision, SearchState(mid, st.hi, st.iterations + 1), low);
      }
    }
  }

  /** On non-empty traffic the search ends with an upper bound no larger
      than the peak that is the peak or at least 1, within 100 iterations,
      and with the final interval no wider than 0.1% of the peak unless the
      limit was reached. */
  lemma SearchBounds(traffic: seq<real>, bufferSymbols: int, lossTolerance: real, e: SearchState)
    requires |traffic| > 0 && e == Search(traffic, bufferSymbols, lossTolerance)
    ensures e.hi <= Max(traffic) && (e.hi == Max(traffic) || e.hi >= 1.0)
    ensures e.iterations <= MaxIterations
    ensures e.hi - e.lo <= Max(traffic) * 0.001 || e.iterations == MaxIterations
  {
    var peak := Max(traffic);
    BisectBounds(traffic, bufferSymbols, lossTolerance, peak * 0.001, SearchStart(traffic), peak);
  }

  /** For non-negative traffic, a non-negative buffer and tolerance, the
      capacity found meets the tolerance, and the final lower bound does not
      unless it is the starting one. */
  lemma MinimumCapacityFeasible(traffic: seq<real>, bufferSymbols: int, lossTolerance: real)
    requires bufferSymbols >= 0 && lossTolerance >= 0.0
    requires forall i :: 0 <= i < |traffic| ==> traffic[i] >= 0.0
    ensures Simulation(traffic, MinimumCapacity(traffic, bufferSymbols, lossTolerance), bufferSymbols).lossRatio <= lossTolerance
    ensures |traffic| > 0 ==>
      var e := Search(traffic, bufferSymbols, lossTolerance);
      e.lo == SearchStart(traffic).lo || Simulation(traffic, e.lo, bufferSymbols).lossRatio > lossTolerance
  {
    if |traffic| == 0 {
      SimulationAtPeak(traffic, 0.0, bufferSymbols);
    } else {
      var peak := Max(traffic);
      assert traffic[0] <= peak;
      SimulationAtPeak(traffic, peak, bufferSymbols);
      var start := SearchStart(traffic);
      BisectFeasible(traffic, bufferSymbols, lossTolerance, peak * 0.001, start, start.lo);
    }
  }

  // ---------------------------------------------------------------------------
  // Capacity per link
  // ---------------------------------------------------------------------------

  /** `link_traffic_df[col].max()`: the peak of a column; pandas gives NaN
      for an empty column, `None` here. */
  function ColumnMax(values: seq<real>): (m: Option<real>)
    ensures m.None? <==> |values| == 0
    ensures m.Some? ==> m.value in values && forall i | 0 <= i < |values| :: values[i] <= m.value
  {
    if |values| == 0 then None else Some(Max(values))
  }

  /** The dictionary `estimate_capacity_no_buffer` returns, or its
      `ValueError` when the frame has no `_bits` column. */
  function NoBufferCapacities(t: LinkTable): (r: Result<map<string, Option<real>>>)
    requires HasLinkValues(t)
    ensures r.Failure? <==> |GetLinkColumns(t)| == 0
    ensures r.Failure? ==> r.error == ValueError(NoLinkColumnsMessage(t.columns))
  {
    var cols := GetLinkColumns(t);
    if |cols| == 0 then Failure(ValueError(NoLinkColumnsMessage(t.columns)))
    else Success(PerLink(t, cols, ColumnMax))
  }

  /** `estimate_capacity_no_buffer`. */
  method EstimateCapacityNoBuffer(t: LinkTable) returns (r: Result<map<string, Option<real>>>)
    requires HasLinkValues(t)
    ensures r == NoBufferCapacities(t)
  {
    var linkColumns := GetLinkColumns(t);
    if |linkColumns| == 0 {
      return Failure(ValueError(NoLinkColumnsMessage(t.columns)));
    }
    var capacity: map<string, Option<real>> := map[];
    for k := 0 to |linkColumns|
      invariant capacity == PerLink(t, linkColumns[..k], ColumnMax)
    {
      var col := linkColumns[k];
      PerLinkSnoc(t, linkColumns, ColumnMax, k);
      capacity := capacity[LinkName(col) := ColumnMax(Column(t, col))];
    }
    assert linkColumns[..|linkColumns|] == linkColumns;
    r := Success(capacity);
  }

  /** The no-buffer estimate fails exactly when no column ends in `_bits`;
      otherwise it has one entry per link name, and the entry of a column
      that no later column overwrites is that column's peak. */
  lemma NoBufferIsPeak(t: LinkTable)
    requires HasLinkValues(t)
    ensures NoBufferCapacities(t).Failure? <==> forall c | c in t.columns :: !EndsWith(c, BitsSuffix)
    ensures NoBufferCapacities(t).Failure? ==> NoBufferCapacities(t).error == ValueError(NoLinkColumnsMessage(t.columns))
    ensures NoBufferCapacities(t).Success? ==>
      var cap := NoBufferCapacities(t).value;
      var cols := GetLinkColumns(t);
      && cap.Keys == (set name | name in LinkNames(cols))
      && forall k | 0 <= k < |cols| && (forall j | k < j < |cols| :: LinkName(cols[j]) != LinkName(cols[k])) ::
           LinkName(cols[k]) in cap && cap[LinkName(cols[k])] == ColumnMax(Column(t, cols[k]))
  {
    var cols := GetLinkColumns(t);
    if |cols| > 0 {
      assert cols[0] in t.columns;
      PerLinkKeys(t, cols, ColumnMax);
      forall k | 0 <= k < |cols| && (forall j | k < j < |cols| :: LinkName(cols[j]) != LinkName(cols[k]))
        ensures LinkName(cols[k]) in PerLink(t, cols, ColumnMax)
          && PerLink(t, cols, ColumnMax)[LinkName(cols[k])] == ColumnMax(Column(t, cols[k]))
      {
        PerLinkValue(t, cols, ColumnMax, k);
      }
    }
  }

  /** `sort_values("slot_id")` orders rows by slot id. */
  predicate SlotIdLe(a: LinkRow, b: LinkRow)
  {
    a.slotId <= b.slotId
  }

  lemma SlotIdLeIsTotalPreorder()
    ensures TotalPreorder(SlotIdLe)
  {
  }

  /** `link_traffic_df.sort_values("slot_id")`. */
  function SortedBySlot(t: LinkTable): (s: LinkTable)
    ensures s.columns == t.columns
    ensures multiset(s.rows) == multiset(t.rows)
    ensures forall i, j | 0 <= i < j < |s.rows| :: s.rows[i].slotId <= s.rows[j].slotId
  {
    SlotIdLeIsTotalPreorder();
    LinkTable(t.columns, Sort(t.rows, SlotIdLe))
  }

  predicate SlotIdsIncreasing(rows: seq<LinkRow>)
  {
    forall i, j | 0 <= i < j < |rows| :: rows[i].slotId < rows[j].slotId
  }

  /** Two rearrangements of each other with strictly increasing slot ids are equal. */
  lemma {:induction false} IncreasingUnique(a: seq<LinkRow>, b: seq<LinkRow>)
    requires multiset(a) == multiset(b) && SlotIdsIncreasing(a) && SlotIdsIncreasing(b)
    ensures a == b
    decreases |a|
  {
    assert |a| == |multiset(a)| == |b|;
    if |a| > 0 {
      var n := |a| - 1;
      assert a[n] == b[n] by {
        IncreasingSameLast(a, b);
      }
      assert a[..n] == b[..n] by {
        IncreasingSameLast(a, b);
        DropLastMultiset(a);
        DropLastMultiset(b);
        IncreasingPrefix(a, n);
        IncreasingPrefix(b, n);
        IncreasingUnique(a[..n], b[..n]);
      }
      assert a == a[..n] + [a[n]] && b == b[..n] + [b[n]];
    }
  }

  lemma IncreasingPrefix(a: seq<LinkRow>, n: nat)
    requires n <= |a| && SlotIdsIncreasing(a)
    ensures SlotIdsIncreasing(a[..n])
  {
  }

  /** Both end in the row with the largest slot id. */
  lemma IncreasingSameLast(a: seq<LinkRow>, b: seq<LinkRow>)
    requires |a| > 0 && multiset(a) == multiset(b) && SlotIdsIncreasing(a) && SlotIdsIncreasing(b)
    ensures |b| == |a| && a[|a| - 1] == b[|a| - 1]
  {
    assert |a| == |multiset(a)| == |b|;
    var n := |a| - 1;
    assert a[n] in multiset(b);
    var j :| 0 <= j < |b| && b[j] == a[n];
    assert b[n] in multiset(a);
    var i :| 0 <= i < |a| && a[i] == b[n];
    assert a[n].slotId <= b[n].slotId && b[n].slotId <= a[n].slotId;
  }

  /** A slot-sorted rearrangement of rows with distinct slot ids has strictly
      increasing slot ids. */
  lemma SortedIncreasing(t: LinkTable, rows: seq<LinkRow>)
    requires forall i, j | 0 <= i < j < |t.rows| :: t.rows[i].slotId != t.rows[j].slotId
    requires multiset(rows) == multiset(t.rows) && SortedBy(rows, SlotIdLe)
    ensures SlotIdsIncreasing(rows)
  {
    assert Distinct(t.rows);
    DistinctPermutation(t.rows, rows);
    forall i, j | 0 <= i < j < |rows| ensures rows[i].slotId < rows[j].slotId {
      assert SlotIdLe(rows[i], rows[j]);
      assert rows[i] in multiset(t.rows) && rows[j] in multiset(t.rows);
      var p :| 0 <= p < |t.rows| && t.rows[p] == rows[i];
      var q :| 0 <= q < |t.rows| && t.rows[q] == rows[j];
      assert p != q;
    }
  }

  /** With distinct slot ids there is only one slot order: every rearrangement
      of the rows sorted by `slot_id`, whatever sort produced it, is this one. */
  lemma SlotOrderUnique(t: LinkTable, rows: seq<LinkRow>)
    requires forall i, j | 0 <= i < j < |t.rows| :: t.rows[i].slotId != t.rows[j].slotId
    requires multiset(rows) == multiset(t.rows) && SortedBy(rows, SlotIdLe)
    ensures rows == SortedBySlot(t).rows
  {
    SortedIncreasing(t, rows);
    SortedIncreasing(t, SortedBySlot(t).rows);
    IncreasingUnique(rows, SortedBySlot(t).rows);
  }

  /** The table `aggregate_slot_traffic_by_link` builds is already in slot
      order, so `sort_values("slot_id")` leaves it as it is. */
  lemma AggregatedInSlotOrder(slotDf: Frame<SlotRow>, topology: map<CellId, string>, t: LinkTable)
    requires AggregateSlotTrafficByLink(slotDf, topology) == Success(t)
    ensures SortedBySlot(t) == t
  {
    AggregateRows(slotDf, topology, t);
    SlotOrderUnique(t, t.rows);
  }

  /** Sorting keeps every row, so every link column keeps its values. */
  lemma SortedColumnMembers(t: LinkTable, c: string)
    requires InEveryRow(t, c)
    ensures InEveryRow(SortedBySlot(t), c)
    ensures forall x :: x in Column(SortedBySlot(t), c) <==> x in Column(t, c)
  {
    var s := SortedBySlot(t);
    PermutationMembers(s.rows, t.rows);
    forall i | 0 <= i < |s.rows| ensures c in s.rows[i].bits {
      assert s.rows[i] in t.rows;
    }
    var a, b := Column(s, c), Column(t, c);
    forall x ensures x in a <==> x in b {
      if x in a {
        var i :| 0 <= i < |a| && a[i] == x;
        assert s.rows[i] in t.rows;
        var j :| 0 <= j < |t.rows| && t.rows[j] == s.rows[i];
        assert b[j] == x;
      }
      if x in b {
        var j :| 0 <= j < |b| && b[j] == x;
        assert t.rows[j] in s.rows;
        var i :| 0 <= i < |s.rows| && s.rows[i] == t.rows[j];
        assert a[i] == x;
      }
    }
  }

  lemma SortedHasLinkValues(t: LinkTable)
    requires HasLinkValues(t)
    ensures HasLinkValues(SortedBySlot(t))
  {
    forall c | c in t.columns && EndsWith(c, BitsSuffix) ensures InEveryRow(SortedBySlot(t), c) {
      SortedColumnMembers(t, c);
    }
  }

  /** `find_minimum_capacity` with a fixed buffer and tolerance, as the
      function the estimate applies to each column. */
  function MinCapacityOf(bufferSymbols: int, lossTolerance: real): seq<real> -> real
  {
    traffic => MinimumCapacity(traffic, bufferSymbols, lossTolerance)
  }

  /** The dictionary `estimate_capacity_with_buffer` returns: its
      `ValueError` when the frame has no `_bits` column, the `KeyError` of
      `sort_values("slot_id")` when it has no `slot_id` column, and otherwise
      the minimum capacity of each link column, read in slot order. */
  function WithBufferCapacities(t: LinkTable, bufferSymbols: int, lossTolerance: real): (r: Result<map<string, real>>)
    requires HasLinkValues(t)
    ensures r.Failure? && r.error.ValueError? <==> |GetLinkColumns(t)| == 0
    ensures r == Failure(KeyError([SlotIdColumn])) <==> |GetLinkColumns(t)| > 0 && SlotIdColumn !in t.columns
    ensures r.Success? ==> r.value.Keys == set name | name in LinkNames(GetLinkColumns(t))
  {
    var cols := GetLinkColumns(t);
    if |cols| == 0 then Failure(ValueError(NoLinkColumnsMessage(t.columns)))
    else if SlotIdColumn !in t.columns then Failure(KeyError([SlotIdColumn]))
    else
      SortedHasLinkValues(t);
      PerLinkKeys(SortedBySlot(t), cols, MinCapacityOf(bufferSymbols, lossTolerance));
      Success(PerLink(SortedBySlot(t), cols, MinCapacityOf(bufferSymbols, lossTolerance)))
  }

  /** `estimate_capacity_with_buffer`. */
  method EstimateCapacityWithBuffer(t: LinkTable, bufferSymbols: int := DefaultBufferSymbols,
                                    lossTolerance: real := DefaultLossTolerance)
    returns (r: Result<map<string, real>>)
    requires HasLinkValues(t)
    ensures r == WithBufferCapacities(t, bufferSymbols, lossTolerance)
  {
    var linkColumns := GetLinkColumns(t);
    if |linkColumns| == 0 {
      return Failure(ValueError(NoLinkColumnsMessage(t.columns)));
    }
    if SlotIdColumn !in t.columns {
      return Failure(KeyError([SlotIdColumn]));
    }
    var sorted := SortedBySlot(t);
    SortedHasLinkValues(t);
    var f := MinCapacityOf(bufferSymbols, lossTolerance);
    var capacity: map<string, real> := map[];
    for k := 0 to |linkColumns|
      invariant capacity == PerLink(sorted, linkColumns[..k], f)
    {
      var col := linkColumns[k];
      var trafficSeries := Column(sorted, col);
      var minCapacity := FindMinimumCapacity(trafficSeries, bufferSymbols, lossTolerance);
      PerLinkSnoc(sorted, linkColumns, f, k);
      capacity := capacity[LinkName(col) := minCapacity];
    }
    assert linkColumns[..|linkColumns|] == linkColumns;
    r := Success(capacity);
  }

  /** The entry of a column that no later column overwrites is the minimum
      capacity of that column's traffic in slot order. */
  lemma WithBufferIsMinimum(t: LinkTable, bufferSymbols: int, lossTolerance: real, k: int)
    requires HasLinkValues(t) && SlotIdColumn in t.columns
    requires 0 <= k < |GetLinkColumns(t)|
    requires forall j | k < j < |GetLinkColumns(t)| :: LinkName(GetLinkColumns(t)[j]) != LinkName(GetLinkColumns(t)[k])
    ensures WithBufferCapacities(t, bufferSymbols, lossTolerance).Success?
    ensures InEveryRow(SortedBySlot(t), GetLinkColumns(t)[k])
    ensures var cap := WithBufferCapacities(t, bufferSymbols, lossTolerance).value;
      var c := GetLinkColumns(t)[k];
      LinkName(c) in cap && cap[LinkName(c)] == MinimumCapacity(Column(SortedBySlot(t), c), bufferSymbols, lossTolerance)
  {
    SortedHasLinkValues(t);
    var cols := GetLinkColumns(t);
    assert cols[k] in cols;
    PerLinkValue(SortedBySlot(t), cols, MinCapacityOf(bufferSymbols, lossTolerance), k);
  }

  /** No link traffic is negative. */
  predicate NonNegativeTraffic(t: LinkTable)
  {
    forall i, c | 0 <= i < |t.rows| && c in t.rows[i].bits :: t.rows[i].bits[c] >= 0.0
  }

  /** With non-negative traffic, buffer and tolerance, the with-buffer
      capacity of each link meets the loss tolerance on that link's traffic. */
  lemma WithBufferMeetsTolerance(t: LinkTable, bufferSymbols: int, lossTolerance: real, k: int)
    requires HasLinkValues(t) && NonNegativeTraffic(t) && SlotIdColumn in t.columns
    requires bufferSymbols >= 0 && lossTolerance >= 0.0
    requires 0 <= k < |GetLinkColumns(t)|
    requires forall j | k < j < |GetLinkColumns(t)| :: LinkName(GetLinkColumns(t)[j]) != LinkName(GetLinkColumns(t)[k])
    ensures WithBufferCapacities(t, bufferSymbols, lossTolerance).Success?
    ensures InEveryRow(SortedBySlot(t), GetLinkColumns(t)[k])
    ensures var cap := WithBufferCapacities(t, bufferSymbols, lossTolerance).value;
      var c := GetLinkColumns(t)[k];
      LinkName(c) in cap &&
      Simulation(Column(SortedBySlot(t), c), cap[LinkName(c)], bufferSymbols).lossRatio <= lossTolerance
  {
    WithBufferIsMinimum(t, bufferSymbols, lossTolerance, k);
    var c := GetLinkColumns(t)[k];
    assert c in t.columns;
    SortedTrafficNonNegative(t, c);
    MinimumCapacityFeasible(Column(SortedBySlot(t), c), bufferSymbols, lossTolerance);
  }

  lemma SortedTrafficNonNegative(t: LinkTable, c: string)
    requires HasLinkValues(t) && NonNegativeTraffic(t) && InEveryRow(t, c)
    ensures InEveryRow(SortedBySlot(t), c)
    ensures forall i | 0 <= i < |Column(SortedBySlot(t), c)| :: Column(SortedBySlot(t), c)[i] >= 0.0
  {
    SortedColumnMembers(t, c);
    var traffic := Column(SortedBySlot(t), c);
    forall i | 0 <= i < |traffic| ensures traffic[i] >= 0.0 {
      assert traffic[i] in Column(t, c);
    }
  }

  /** Per column, the minimum capacity in slot order never exceeds the
      column's peak, is 0 for an empty column, and is not negative when
      the peak is not. */
  lemma ColumnCapacitiesOrdered(t: LinkTable, s: LinkTable, c: string, bufferSymbols: int, lossTolerance: real)
    requires InEveryRow(t, c) && InEveryRow(s, c)
    requires forall x :: x in Column(s, c) <==> x in Column(t, c)
    ensures var nb := ColumnMax(Column(t, c));
      var wb := MinimumCapacity(Column(s, c), bufferSymbols, lossTolerance);
      && (nb.None? ==> wb == 0.0)
      && (nb.Some? ==> wb <= nb.value && (nb.value >= 0.0 ==> wb >= 0.0))
  {
    var a, b := Column(t, c), Column(s, c);
    if |b| > 0 {
      assert b[0] in a;
    }
    if |a| > 0 {
      MaxSameMembers(a, b);
    }
  }

  /** The two estimates, over the same columns, have the same link names,
      and each link's with-buffer capacity is at most its peak. */
  lemma {:induction false} PerLinkCapacitiesOrdered(t: LinkTable, s: LinkTable, cols: seq<string>,
                                                    bufferSymbols: int, lossTolerance: real)
    requires forall c | c in cols :: InEveryRow(t, c) && InEveryRow(s, c)
    requires forall c | c in cols :: forall x :: x in Column(s, c) <==> x in Column(t, c)
    ensures var nb := PerLink(t, cols, ColumnMax);
      var wb := PerLink(s, cols, MinCapacityOf(bufferSymbols, lossTolerance));
      && nb.Keys == wb.Keys
      && forall l | l in nb ::
           && (nb[l].None? ==> wb[l] == 0.0)
           && (nb[l].Some? ==> wb[l] <= nb[l].value && (nb[l].value >= 0.0 ==> wb[l] >= 0.0))
  {
    if |cols| > 0 {
      var c := cols[|cols| - 1];
      PerLinkCapacitiesOrdered(t, s, cols[..|cols| - 1], bufferSymbols, lossTolerance);
      ColumnCapacitiesOrdered(t, s, c, bufferSymbols, lossTolerance);
    }
  }

  /** With-buffer capacity is at most no-buffer capacity: the with-buffer
      estimate fails exactly when the no-buffer one does or the frame has no
      `slot_id` column, and otherwise they cover the same links, a link
      whose peak exists gets a capacity no larger than it, and an empty
      column's link gets 0. */
  lemma WithBufferAtMostNoBuffer(t: LinkTable, bufferSymbols: int, lossTolerance: real)
    requires HasLinkValues(t)
    ensures WithBufferCapacities(t, bufferSymbols, lossTolerance).Failure? <==>
      NoBufferCapacities(t).Failure? || SlotIdColumn !in t.columns
    ensures NoBufferCapacities(t).Success? && SlotIdColumn in t.columns ==>
      var nb := NoBufferCapacities(t).value;
      var wb := WithBufferCapacities(t, bufferSymbols, lossTolerance).value;
      && nb.Keys == wb.Keys
      && forall l | l in nb ::
           && (nb[l].None? ==> wb[l] == 0.0)
           && (nb[l].Some? ==> wb[l] <= nb[l].value && (nb[l].value >= 0.0 ==> wb[l] >= 0.0))
  {
    var cols := GetLinkColumns(t);
    if |cols| > 0 && SlotIdColumn in t.columns {
      SortedHasLinkValues(t);
      forall c | c in cols ensures forall x :: x in Column(SortedBySlot(t), c) <==> x in Column(t, c) {
        SortedColumnMembers(t, c);
      }
      PerLinkCapacitiesOrdered(t, SortedBySlot(t), cols, bufferSymbols, lossTolerance);
    }
  }

  // ---------------------------------------------------------------------------
  // Comparing the estimates
  // ---------------------------------------------------------------------------

  /** One entry of `compare_capacity_estimates`: `no_buffer_bits`,
      `with_buffer_bits`, `reduction_bits` and `reduction_percent`. A NaN
      peak (an empty column) is `None`; its reduction is NaN too. */
  datatype Comparison = Comparison(
    noBufferBits: Option<real>, withBufferBits: real, reductionBits: Option<real>, reductionPercent: real)

  /** The entry for a link with the given estimates: the reduction is the
      saving `nb - wb`, and the percentage its share of `nb`, or 0 unless
      `nb` is positive. */
  function CompareOne(nb: Option<real>, wb: real): (c: Comparison)
    ensures c.noBufferBits == nb && c.withBufferBits == wb
    ensures c.reductionBits.Some? <==> nb.Some?
    ensures nb.Some? ==> c.reductionBits.value + wb == nb.value
    ensures nb.Some? && nb.value > 0.0 ==> c.reductionPercent * nb.value == 100.0 * c.reductionBits.value
    ensures !(nb.Some? && nb.value > 0.0) ==> c.reductionPercent == 0.0
  {
    match nb
    case None => Comparison(None, wb, None, 0.0)
    case Some(v) =>
      var reduction := v - wb;
      Comparison(nb, wb, Some(reduction), if v > 0.0 then reduction / v * 100.0 else 0.0)
  }

  /** `with_buffer.get(link_name, 0)`. */
  function WithBufferOrZero(withBuffer: map<string, real>, linkName: string): (wb: real)
    ensures linkName in withBuffer ==> wb == withBuffer[linkName]
    ensures linkName !in withBuffer ==> wb == 0.0
  {
    if linkName in withBuffer then withBuffer[linkName] else 0.0
  }

  /** The dictionary `compare_capacity_estimates` returns: one entry per
      no-buffer link. */
  function Comparisons(noBuffer: map<string, Option<real>>, withBuffer: map<string, real>): (r: map<string, Comparison>)
    ensures r.Keys == noBuffer.Keys
  {
    map l | l in noBuffer :: CompareOne(noBuffer[l], WithBufferOrZero(withBuffer, l))
  }

  /** `compare_capacity_estimates`. The links are visited in some order
      of the dictionary; the result does not depend on it. */
  method CompareCapacityEstimates(noBuffer: map<string, Option<real>>, withBuffer: map<string, real>)
    returns (comparison: map<string, Comparison>)
    ensures comparison == Comparisons(noBuffer, withBuffer)
  {
    comparison := map[];
    var remaining := noBuffer.Keys;
    while remaining != {}
      invariant remaining <= noBuffer.Keys
      invariant comparison.Keys == noBuffer.Keys - remaining
      invariant forall l | l in comparison :: comparison[l] == CompareOne(noBuffer[l], WithBufferOrZero(withBuffer, l))
      decreases remaining
    {
      var linkName :| linkName in remaining;
      var nb := noBuffer[linkName];
      var wb := if linkName in withBuffer then withBuffer[linkName] else 0.0;
      var reduction: Option<real> := None;
      var reductionPct := 0.0;
      if nb.Some? {
        reduction := Some(nb.value - wb);
        if nb.value > 0.0 {
          reductionPct := (nb.value - wb) / nb.value * 100.0;
        }
      }
      comparison := comparison[linkName := Comparison(nb, wb, reduction, reductionPct)];
      remaining := remaining - {linkName};
    }
  }

  /** A with-buffer capacity between 0 and a positive peak saves between 0
      and the whole peak, that is between 0 and 100 percent. */
  lemma ReductionBounds(nb: real, wb: real)
    requires 0.0 <= wb <= nb && nb > 0.0
    ensures var c := CompareOne(Some(nb), wb);
      && 0.0 <= c.reductionBits.value <= nb
      && 0.0 <= c.reductionPercent <= 100.0
  {
    var c := CompareOne(Some(nb), wb);
    var r := c.reductionBits.value;
    assert c.reductionPercent * nb == 100.0 * r;
    assert 0.0 <= 100.0 * r <= 100.0 * nb;
  }

  /** Of non-negative traffic, every peak is non-negative. */
  lemma {:induction false} PeaksNonNegative(t: LinkTable, cols: seq<string>)
    requires NonNegativeTraffic(t)
    requires forall c | c in cols :: InEveryRow(t, c)
    ensures forall l | l in PerLink(t, cols, ColumnMax) && PerLink(t, cols, ColumnMax)[l].Some? ::
      PerLink(t, cols, ColumnMax)[l].value >= 0.0
  {
    if |cols| > 0 {
      var c := cols[|cols| - 1];
      PeaksNonNegative(t, cols[..|cols| - 1]);
      var m := ColumnMax(Column(t, c));
      if m.Some? {
        var i :| 0 <= i < |t.rows| && Column(t, c)[i] == m.value;
        assert t.rows[i].bits[c] >= 0.0;
      }
    }
  }

  /** Comparing the two estimates of one frame of non-negative traffic: one
      entry per link; the with-buffer capacity always reads from its own
      estimate; where the peak exists the saving is between 0 and the peak,
      and where the peak is positive the percentage is between 0 and 100. */
  lemma CompareEstimates(t: LinkTable, bufferSymbols: int, lossTolerance: real)
    requires HasLinkValues(t) && NonNegativeTraffic(t) && SlotIdColumn in t.columns
    requires NoBufferCapacities(t).Success?
    ensures WithBufferCapacities(t, bufferSymbols, lossTolerance).Success?
    ensures var nb := NoBufferCapacities(t).value;
      var wb := WithBufferCapacities(t, bufferSymbols, lossTolerance).value;
      var cmp := Comparisons(nb, wb);
      && cmp.Keys == nb.Keys
      && forall l | l in cmp ::
           && l in wb && cmp[l].withBufferBits == wb[l]
           && (cmp[l].reductionBits.Some? ==> 0.0 <= cmp[l].reductionBits.value <= cmp[l].noBufferBits.value)
           && (cmp[l].noBufferBits.Some? && cmp[l].noBufferBits.value > 0.0 ==> 0.0 <= cmp[l].reductionPercent <= 100.0)
  {
    WithBufferAtMostNoBuffer(t, bufferSymbols, lossTolerance);
    var nb := NoBufferCapacities(t).value;
    var wb := WithBufferCapacities(t, bufferSymbols, lossTolerance).value;
    PeaksNonNegative(t, GetLinkColumns(t));
    forall l | l in nb && nb[l].Some? && nb[l].value > 0.0
      ensures 0.0 <= CompareOne(nb[l], wb[l]).reductionPercent <= 100.0
    {
      ReductionBounds(nb[l].value, wb[l]);
    }
  }
}
