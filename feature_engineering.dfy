/** Feature engineering for congestion prediction: per-cell histories of the
    traffic frame (slots since the last congestion, rolling counts,
    frequencies, means and maxima, lags and differences), per (timestamp,
    link) load, the filling of missing values, and the catalogue of feature
    names. The frame is sorted by cell and timestamp first; a pandas
    `groupby("cell_id").transform` then sees, at each row, the rows of the
    same cell up to and including that row, in frame order. */
module FeatureEngineering {
  import opened Wrappers
  import opened Seqs
  import opened Strings
  import opened Sorting
  import opened Frames

  const WindowSizes: seq<nat> := [5, 10, 20]
  const MinPeriods := 1
  const LagPeriods: seq<nat> := [1, 2, 3, 5, 10]

  // ---------------------------------------------------------------------------
  // Ordering and per-cell history
  // ---------------------------------------------------------------------------

  /** Order of `sort_values(["cell_id", "timestamp"])`. */
  predicate CellTimeLe(a: TrafficRow, b: TrafficRow)
  {
    LexLt(a.cellId, b.cellId) || (a.cellId == b.cellId && a.timestamp <= b.timestamp)
  }

  lemma CellTimeLeIsTotalPreorder()
    ensures TotalPreorder(CellTimeLe)
  {
    forall a: TrafficRow, b: TrafficRow ensures CellTimeLe(a, b) || CellTimeLe(b, a) {
      LexLeTotal(a.cellId, b.cellId);
    }
    forall a: TrafficRow, b: TrafficRow, c: TrafficRow | CellTimeLe(a, b) && CellTimeLe(b, c)
      ensures CellTimeLe(a, c)
    {
      if LexLt(a.cellId, b.cellId) && LexLt(b.cellId, c.cellId) {
        LexLeTransitive(a.cellId, b.cellId, c.cellId);
        if a.cellId == c.cellId { LexLeAntisymmetric(a.cellId, b.cellId); }
      }
    }
  }

  /** `result.sort_values(["cell_id", "timestamp"]).reset_index(drop=True)`. */
  function SortByCellTime(rows: seq<TrafficRow>): (s: seq<TrafficRow>)
    ensures multiset(s) == multiset(rows)
    ensures SortedBy(s, CellTimeLe)
  {
    CellTimeLeIsTotalPreorder();
    Sort(rows, CellTimeLe)
  }

  /** The indices below `n` of the rows of cell `c`, in frame order. */
  function CellIndices(rows: seq<TrafficRow>, c: CellId, n: nat): (ix: seq<nat>)
    requires n <= |rows|
    ensures |ix| <= n
    ensures forall k | 0 <= k < |ix| :: ix[k] < n && rows[ix[k]].cellId == c
  {
    if n == 0 then []
    else CellIndices(rows, c, n - 1) + (if rows[n - 1].cellId == c then [n - 1] else [])
  }

  /** The indices come in increasing order. */
  lemma {:induction false} CellIndicesIncreasing(rows: seq<TrafficRow>, c: CellId, n: nat)
    requires n <= |rows|
    ensures forall k, l | 0 <= k < l < |CellIndices(rows, c, n)| :: CellIndices(rows, c, n)[k] < CellIndices(rows, c, n)[l]
  {
    if n > 0 {
      CellIndicesIncreasing(rows, c, n - 1);
    }
  }

  /** Every row of the cell below `n` is listed. */
  lemma {:induction false} CellIndicesComplete(rows: seq<TrafficRow>, c: CellId, n: nat, j: nat)
    requires j < n <= |rows| && rows[j].cellId == c
    ensures j in CellIndices(rows, c, n)
  {
    if j < n - 1 {
      CellIndicesComplete(rows, c, n - 1, j);
    }
  }

  /** The indices of the rows of row `i`'s cell up to and including row `i`. */
  function HistoryIndices(rows: seq<TrafficRow>, i: nat): (ix: seq<nat>)
    requires i < |rows|
    ensures |ix| > 0 && ix[|ix| - 1] == i
  {
    var ix := CellIndices(rows, rows[i].cellId, i + 1);
    assert ix == CellIndices(rows, rows[i].cellId, i) + [i];
    ix
  }

  /** What a group transform sees at row `i`: the rows of its cell so far. */
  function History(rows: seq<TrafficRow>, i: nat): (h: seq<TrafficRow>)
    requires i < |rows|
    ensures |h| == |HistoryIndices(rows, i)| && h[|h| - 1] == rows[i]
  {
    var ix := HistoryIndices(rows, i);
    seq(|ix|, k requires 0 <= k < |ix| => rows[ix[k]])
  }

  /** The cell's rows before `m` are a prefix of those before `n >= m`. */
  lemma {:induction false} CellIndicesPrefix(rows: seq<TrafficRow>, c: CellId, m: nat, n: nat)
    requires m <= n <= |rows|
    ensures |CellIndices(rows, c, m)| <= |CellIndices(rows, c, n)|
    ensures CellIndices(rows, c, m) == CellIndices(rows, c, n)[..|CellIndices(rows, c, m)|]
    decreases n - m
  {
    if m < n {
      CellIndicesPrefix(rows, c, m, n - 1);
      var p, q, r := CellIndices(rows, c, m), CellIndices(rows, c, n - 1), CellIndices(rows, c, n);
      assert r[..|q|] == q;
      assert r[..|p|] == q[..|p|];
    }
  }

  /** Up to the `k`-th row of the cell, the cell's rows are the first `k + 1`. */
  lemma CellIndicesAt(rows: seq<TrafficRow>, c: CellId, n: nat, k: nat)
    requires n <= |rows| && k < |CellIndices(rows, c, n)|
    ensures CellIndices(rows, c, n)[k] + 1 <= n
    ensures CellIndices(rows, c, CellIndices(rows, c, n)[k] + 1) == CellIndices(rows, c, n)[..k + 1]
  {
    var ix := CellIndices(rows, c, n);
    var m := ix[k] + 1;
    CellIndicesPrefix(rows, c, m, n);
    CellIndicesIncreasing(rows, c, n);
    CellIndicesComplete(rows, c, m, ix[k]);
    var p := CellIndices(rows, c, m);
    var l :| 0 <= l < |p| && p[l] == ix[k];
    assert ix[l] == ix[k];
    assert l == k;
    assert |p| <= k + 1;
  }

  /** The history at an earlier row of the same cell is a prefix of the
      history at a later one: a group transform sees one growing group. */
  lemma HistoryPrefix(rows: seq<TrafficRow>, i: nat, i2: nat)
    requires i <= i2 < |rows| && rows[i].cellId == rows[i2].cellId
    ensures |History(rows, i)| <= |History(rows, i2)|
    ensures History(rows, i) == History(rows, i2)[..|History(rows, i)|]
  {
    CellIndicesPrefix(rows, rows[i].cellId, i + 1, i2 + 1);
  }

  /** The history `n` rows of the cell before row `i` ends at the row the
      history indices name there. */
  lemma HistoryBack(rows: seq<TrafficRow>, i: nat, n: nat)
    requires i < |rows| && n < |History(rows, i)|
    ensures var j := HistoryIndices(rows, i)[|HistoryIndices(rows, i)| - 1 - n];
      && j <= i && rows[j].cellId == rows[i].cellId
      && History(rows, j) == History(rows, i)[..|History(rows, i)| - n]
  {
    var ix := HistoryIndices(rows, i);
    var k := |ix| - 1 - n;
    CellIndicesAt(rows, rows[i].cellId, i + 1, k);
    var j := ix[k];
    assert HistoryIndices(rows, j) == ix[..k + 1];
  }

  /** The rows of the history at row `i` are rows of its cell, earlier ones first. */
  lemma HistoryRows(rows: seq<TrafficRow>, i: nat)
    requires i < |rows|
    ensures var ix := HistoryIndices(rows, i);
      && (forall k | 0 <= k < |ix| :: ix[k] <= i && rows[ix[k]].cellId == rows[i].cellId && History(rows, i)[k] == rows[ix[k]])
      && (forall k, l | 0 <= k < l < |ix| :: ix[k] < ix[l])
      && (forall j | 0 <= j <= i && rows[j].cellId == rows[i].cellId :: j in ix)
  {
    CellIndicesIncreasing(rows, rows[i].cellId, i + 1);
    forall j | 0 <= j <= i && rows[j].cellId == rows[i].cellId ensures j in HistoryIndices(rows, i) {
      CellIndicesComplete(rows, rows[i].cellId, i + 1, j);
    }
  }

  // ---------------------------------------------------------------------------
  // Slots since the last congestion
  // ---------------------------------------------------------------------------

  /** `(packet_loss > 0)`: the congestion indicator of a row. */
  predicate Congested(r: TrafficRow)
  {
    r.packetLoss > 0
  }

  /** The congestion indicators of a sequence of rows. */
  function Flags(h: seq<TrafficRow>): (f: seq<bool>)
    ensures |f| == |h| && forall k | 0 <= k < |h| :: f[k] == Congested(h[k])
  {
    seq(|h|, k requires 0 <= k < |h| => Congested(h[k]))
  }

  /** The counter of `slots_since_congestion` at position `k` of a group:
      reset on a congested slot, one more than at the slot before otherwise,
      and 0 at the group's first slot. */
  function SinceAt(g: seq<bool>, k: nat): (r: nat)
    requires k < |g|
    ensures r <= k
  {
    if g[k] || k == 0 then 0 else SinceAt(g, k - 1) + 1
  }

  /** `slots_since_congestion(group)`. */
  method SlotsSinceCongestion(group: seq<bool>) returns (slotsSince: seq<nat>)
    ensures |slotsSince| == |group|
    ensures forall k | 0 <= k < |group| :: slotsSince[k] == SinceAt(group, k)
  {
    slotsSince := [];
    var counter: nat := 0;
    for k := 0 to |group|
      invariant |slotsSince| == k
      invariant forall l | 0 <= l < k :: slotsSince[l] == SinceAt(group, l)
      invariant counter == if k == 0 then 0 else SinceAt(group, k - 1) + 1
    {
      if group[k] {
        counter := 0;
      }
      slotsSince := slotsSince + [counter];
      counter := counter + 1;
    }
  }

  /** The counter is the distance back to the last congested slot: no slot
      after it is congested, and it is congested itself unless it is the
      group's first slot. */
  lemma {:induction false} SinceIsDistance(g: seq<bool>, k: nat)
    requires k < |g|
    ensures var r := SinceAt(g, k);
      && (g[k - r] || k - r == 0)
      && forall m | k - r < m <= k :: !g[m]
  {
    if !g[k] && k > 0 {
      SinceIsDistance(g, k - 1);
    }
  }

  /** The counter at a slot depends only on the slots up to it. */
  lemma {:induction false} SinceAtPrefix(g: seq<bool>, k: nat, n: nat)
    requires k < n <= |g|
    ensures SinceAt(g[..n], k) == SinceAt(g, k)
  {
    if !g[k] && k > 0 {
      SinceAtPrefix(g, k - 1, n);
    }
  }

  /** The `slots_since_last_congestion` column at row `i`. */
  function SlotsSinceLastCongestion(rows: seq<TrafficRow>, i: nat): (d: nat)
    requires i < |rows|
    ensures d < |History(rows, i)|
    ensures Congested(rows[i]) ==> d == 0
  {
    var h := History(rows, i);
    assert Flags(h)[|h| - 1] == Congested(rows[i]);
    SinceAt(Flags(h), |h| - 1)
  }

  /** The column is 0 on a congested row and on each cell's first row, and
      otherwise one more than at the cell's previous row. */
  lemma SlotsSinceSteps(rows: seq<TrafficRow>, i: nat)
    requires i < |rows|
    ensures Congested(rows[i]) ==> SlotsSinceLastCongestion(rows, i) == 0
    ensures |History(rows, i)| == 1 ==> SlotsSinceLastCongestion(rows, i) == 0
    ensures !Congested(rows[i]) && |History(rows, i)| > 1 ==>
      var j := HistoryIndices(rows, i)[|HistoryIndices(rows, i)| - 2];
      && j < i && rows[j].cellId == rows[i].cellId
      && SlotsSinceLastCongestion(rows, i) == SlotsSinceLastCongestion(rows, j) + 1
  {
    var h := History(rows, i);
    if !Congested(rows[i]) && |h| > 1 {
      PreviousFlags(rows, i);
      SinceAtStep(Flags(h));
    }
  }

  /** The flags of the cell's previous row are those of row `i` but the last. */
  lemma PreviousFlags(rows: seq<TrafficRow>, i: nat)
    requires i < |rows| && |History(rows, i)| > 1
    ensures var j := HistoryIndices(rows, i)[|HistoryIndices(rows, i)| - 2];
      && j < i && rows[j].cellId == rows[i].cellId
      && Flags(History(rows, j)) == Flags(History(rows, i))[..|History(rows, i)| - 1]
  {
    HistoryBack(rows, i, 1);
    var ix := HistoryIndices(rows, i);
    assert ix[|ix| - 2] < ix[|ix| - 1];
  }

  /** Past an uncongested last slot, the counter is one more than at the slot before. */
  lemma SinceAtStep(g: seq<bool>)
    requires |g| > 1 && !g[|g| - 1]
    ensures SinceAt(g, |g| - 1) == SinceAt(g[..|g| - 1], |g| - 2) + 1
  {
    SinceAtPrefix(g, |g| - 2, |g| - 1);
  }

  /** The column at row `i` is what `slots_since_congestion` computes, at
      row `i`'s position, over the whole group as far as any later row `i2`
      of the cell. */
  lemma SlotsSinceOfGroup(rows: seq<TrafficRow>, i: nat, i2: nat)
    requires i <= i2 < |rows| && rows[i].cellId == rows[i2].cellId
    ensures |History(rows, i)| <= |History(rows, i2)|
    ensures SlotsSinceLastCongestion(rows, i) == SinceAt(Flags(History(rows, i2)), |History(rows, i)| - 1)
  {
    HistoryPrefix(rows, i, i2);
    var h, g := History(rows, i), Flags(History(rows, i2));
    assert Flags(h) == g[..|h|];
    SinceAtPrefix(g, |h| - 1, |h|);
  }

  // ---------------------------------------------------------------------------
  // Rolling windows (`rolling(window=w, min_periods=1)`)
  // ---------------------------------------------------------------------------

  /** The size of the window at a row with `n` rows of history. */
  function WindowLength(n: nat, w: nat): nat
  {
    if w <= n then w else n
  }

  /** The last `min(w, |p|)` entries of a history. */
  function Window<T>(p: seq<T>, w: nat): (win: seq<T>)
    ensures |win| == WindowLength(|p|, w)
    ensures forall k | 0 <= k < |win| :: win[k] == p[|p| - |win| + k]
  {
    p[|p| - WindowLength(|p|, w)..]
  }

  /** `rolling(w).sum()` of the congestion indicator. */
  function RollingCount(flags: seq<bool>, w: nat): (n: nat)
    ensures n <= WindowLength(|flags|, w)
  {
    CountTrue(Window(flags, w))
  }

  /** `rolling(w).mean()` of the congestion indicator: the count over the
      window size. */
  function RollingFrequency(flags: seq<bool>, w: nat): (f: real)
    requires |flags| > 0 && w >= MinPeriods
    ensures 0.0 <= f <= 1.0
  {
    var n, m := RollingCount(flags, w), WindowLength(|flags|, w);
    FractionBounds(n, m);
    n as real / m as real
  }

  /** `rolling(w).max()` of the throughput. */
  function RollingMax(values: seq<real>, w: nat): (m: real)
    requires |values| > 0 && w >= MinPeriods
    ensures m in Window(values, w)
    ensures forall k | |values| - WindowLength(|values|, w) <= k < |values| :: values[k] <= m
  {
    var win := Window(values, w);
    var m := Max(win);
    WindowBelow(values, w, m);
    m
  }

  /** A bound on every entry of the window bounds the last `min(w, |p|)` entries. */
  lemma WindowBelow(values: seq<real>, w: nat, m: real)
    requires forall k | 0 <= k < |Window(values, w)| :: Window(values, w)[k] <= m
    ensures forall k | |values| - WindowLength(|values|, w) <= k < |values| :: values[k] <= m
  {
    var win := Window(values, w);
    var d := |values| - |win|;
    forall k | d <= k < |values| ensures values[k] <= m {
      assert values[k] == win[k - d];
    }
  }

  /** `rolling(w).mean()` of the throughput. */
  function RollingMean(values: seq<real>, w: nat): (m: real)
    requires |values| > 0 && w >= MinPeriods
    ensures m * WindowLength(|values|, w) as real == Sum(Window(values, w))
  {
    Mean(Window(values, w))
  }

  /** The rolling mean lies between the smallest and the largest value of
      the window. */
  lemma RollingMeanBounds(values: seq<real>, w: nat)
    requires |values| > 0 && w >= MinPeriods
    ensures var win := Window(values, w);
      Min(win) <= RollingMean(values, w) <= Max(win)
  {
    MeanBetweenMinAndMax(Window(values, w));
  }

  /** `(x - rolling(w).mean()) / w`: the current value's deviation from the
      rolling mean, per slot of the window size. Its sign is the trend
      direction: positive exactly when the current value is above the
      rolling mean, negative exactly when it is below. */
  function RollingSlope(values: seq<real>, w: nat): (s: real)
    requires |values| > 0 && w >= MinPeriods
    ensures s > 0.0 <==> values[|values| - 1] > RollingMean(values, w)
    ensures s < 0.0 <==> values[|values| - 1] < RollingMean(values, w)
  {
    DivideSign(values[|values| - 1] - RollingMean(values, w), w as real);
    Slope(values[|values| - 1], RollingMean(values, w), w)
  }

  /** A deviation from a mean spread over `w` slots. */
  function Slope(x: real, mean: real, w: nat): real
    requires w > 0
  {
    (x - mean) / w as real
  }

  lemma DivideSign(a: real, d: real)
    requires d > 0.0
    ensures a / d > 0.0 <==> a > 0.0
    ensures a / d < 0.0 <==> a < 0.0
  {
    assert (a / d) * d == a;
  }

  /** The throughput of a sequence of rows. */
  function Throughputs(h: seq<TrafficRow>): (t: seq<real>)
    ensures |t| == |h| && forall k | 0 <= k < |h| :: t[k] == h[k].throughput
  {
    seq(|h|, k requires 0 <= k < |h| => h[k].throughput)
  }

  /** `congestion_count_w` at row `i`. */
  function CongestionCount(rows: seq<TrafficRow>, i: nat, w: nat): (c: nat)
    requires i < |rows|
    ensures c <= w
    ensures Congested(rows[i]) && w >= 1 ==> c >= 1
  {
    var f := Flags(History(rows, i));
    if Congested(rows[i]) && w >= 1 then
      LastInWindowCounts(f, w);
      RollingCount(f, w)
    else
      RollingCount(f, w)
  }

  /** `congestion_freq_w` at row `i`. */
  function CongestionFrequency(rows: seq<TrafficRow>, i: nat, w: nat): (f: real)
    requires i < |rows| && w >= MinPeriods
    ensures 0.0 <= f <= 1.0
    ensures Congested(rows[i]) ==> f > 0.0
  {
    var f := Flags(History(rows, i));
    if Congested(rows[i]) then
      LastInWindowCounts(f, w);
      RollingFrequency(f, w)
    else
      RollingFrequency(f, w)
  }

  /** `throughput_max_w` at row `i`. */
  function ThroughputMax(rows: seq<TrafficRow>, i: nat, w: nat): (m: real)
    requires i < |rows| && w >= MinPeriods
    ensures var h := History(rows, i);
      forall k | |h| - WindowLength(|h|, w) <= k < |h| :: h[k].throughput <= m
  {
    WindowThroughputsBelow(History(rows, i), w);
    RollingMax(Throughputs(History(rows, i)), w)
  }

  /** A congested last row counts in every non-empty window, so the count
      is at least 1 and the frequency positive. */
  lemma LastInWindowCounts(f: seq<bool>, w: nat)
    requires |f| > 0 && w >= 1 && f[|f| - 1]
    ensures RollingCount(f, w) >= 1
    ensures RollingFrequency(f, w) > 0.0
  {
    assert RollingCount(f, w) >= 1 by {
      var win := Window(f, w);
      assert win[|win| - 1] == f[|f| - 1];
    }
    assert RollingFrequency(f, w) > 0.0 by {
      PositiveFraction(RollingCount(f, w), WindowLength(|f|, w));
    }
  }

  lemma PositiveFraction(n: nat, m: nat)
    requires n >= 1 && m >= 1
    ensures n as real / m as real > 0.0
  {
  }

  lemma WindowThroughputsBelow(h: seq<TrafficRow>, w: nat)
    requires |h| > 0 && w >= MinPeriods
    ensures forall k | |h| - WindowLength(|h|, w) <= k < |h| :: h[k].throughput <= RollingMax(Throughputs(h), w)
  {
    var t := Throughputs(h);
    forall k | |h| - WindowLength(|h|, w) <= k < |h| ensures h[k].throughput <= RollingMax(t, w) {
      assert t[k] == h[k].throughput;
    }
  }

  lemma WindowFlags(h: seq<TrafficRow>, w: nat)
    ensures Window(Flags(h), w) == Flags(Window(h, w))
  {
  }

  lemma WindowThroughputs(h: seq<TrafficRow>, w: nat)
    ensures Window(Throughputs(h), w) == Throughputs(Window(h, w))
  {
  }

  /** At row `i`, whose cell has `n` rows so far, the congestion count is the
      number of congested rows among the cell's last `min(w, n)` rows and at
      most that many, and the frequency is the count over `min(w, n)`, in
      [0, 1]. */
  lemma CongestionHistoryWindow(rows: seq<TrafficRow>, i: nat, w: nat)
    requires i < |rows| && w >= MinPeriods
    ensures CongestionCount(rows, i, w) == CountTrue(Flags(Window(History(rows, i), w)))
    ensures CongestionCount(rows, i, w) <= WindowLength(|History(rows, i)|, w)
    ensures CongestionFrequency(rows, i, w)
      == CongestionCount(rows, i, w) as real / WindowLength(|History(rows, i)|, w) as real
    ensures 0.0 <= CongestionFrequency(rows, i, w) <= 1.0
  {
    var h := History(rows, i);
    WindowFlags(h, w);
    assert |Flags(h)| == |h|;
  }

  /** At row `i`, the rolling maximum is the throughput of one of the cell's
      last `min(w, n)` rows and no smaller than the current throughput. */
  lemma ThroughputMaxWindow(rows: seq<TrafficRow>, i: nat, w: nat)
    requires i < |rows| && w >= MinPeriods
    ensures ThroughputMax(rows, i, w) in Throughputs(Window(History(rows, i), w))
    ensures rows[i].throughput <= ThroughputMax(rows, i, w)
  {
    var h := History(rows, i);
    WindowThroughputs(h, w);
    assert Throughputs(h)[|h| - 1] == rows[i].throughput;
  }

  // ---------------------------------------------------------------------------
  // Lags (`groupby("cell_id").shift(n)`)
  // ---------------------------------------------------------------------------

  /** The entry `n` places before the end of a history, missing (NaN in
      pandas) when the history is no longer than `n`. */
  function Lag<T>(p: seq<T>, n: nat): (r: Option<T>)
    ensures r.None? <==> |p| <= n
  {
    if |p| > n then Some(p[|p| - 1 - n]) else None
  }

  /** `throughput_lag_n` at row `i`. */
  function ThroughputLag(rows: seq<TrafficRow>, i: nat, n: nat): (l: Option<real>)
    requires i < |rows|
    ensures var h := History(rows, i);
      && (l.None? <==> |h| <= n)
      && (l.Some? ==> l.value == h[|h| - 1 - n].throughput)
  {
    Lag(Throughputs(History(rows, i)), n)
  }

  /** `throughput_diff_n` at row `i`: missing when the lag is. */
  function ThroughputDiff(rows: seq<TrafficRow>, i: nat, n: nat): (d: Option<real>)
    requires i < |rows|
    ensures d.None? <==> ThroughputLag(rows, i, n).None?
    ensures d.Some? ==> d.value + ThroughputLag(rows, i, n).value == rows[i].throughput
  {
    match ThroughputLag(rows, i, n)
    case None => None
    case Some(lag) => Some(rows[i].throughput - lag)
  }

  /** `packet_loss_lag_n` at row `i`. */
  function PacketLossLag(rows: seq<TrafficRow>, i: nat, n: nat): (l: Option<int>)
    requires i < |rows|
    ensures var h := History(rows, i);
      && (l.None? <==> |h| <= n)
      && (l.Some? ==> l.value == h[|h| - 1 - n].packetLoss)
  {
    var h := History(rows, i);
    Lag(seq(|h|, k requires 0 <= k < |h| => h[k].packetLoss), n)
  }

  /** The lag is missing exactly on a cell's first `n` rows; otherwise it is
      the value at the row of the same cell whose history is `n` rows
      shorter. */
  lemma LagIsEarlierRow(rows: seq<TrafficRow>, i: nat, n: nat)
    requires i < |rows|
    ensures ThroughputLag(rows, i, n).None? <==> |History(rows, i)| <= n
    ensures PacketLossLag(rows, i, n).None? <==> |History(rows, i)| <= n
    ensures |History(rows, i)| > n ==>
      var j := HistoryIndices(rows, i)[|HistoryIndices(rows, i)| - 1 - n];
      && j <= i && rows[j].cellId == rows[i].cellId
      && |History(rows, j)| + n == |History(rows, i)|
      && ThroughputLag(rows, i, n) == Some(rows[j].throughput)
      && PacketLossLag(rows, i, n) == Some(rows[j].packetLoss)
  {
    if |History(rows, i)| > n {
      HistoryBack(rows, i, n);
    }
  }

  // ---------------------------------------------------------------------------
  // Link-level load (`groupby(["timestamp", "link_id"])`)
  // ---------------------------------------------------------------------------

  /** The link a cell's rows are grouped under: the cell itself without a
      topology, its link under one, and the cell itself again when the
      topology does not name it (`map(topology).fillna(cell_id)`). */
  function LinkOf(topology: Option<map<CellId, string>>, c: CellId): string
  {
    match topology
    case None => c
    case Some(links) => if c in links then links[c] else c
  }

  /** Whether row `r` falls in the group of timestamp `t` and link `l`. */
  predicate InLinkGroup(topology: Option<map<CellId, string>>, r: TrafficRow, t: real, l: string)
  {
    r.timestamp == t && LinkOf(topology, r.cellId) == l
  }

  /** The indices below `n` of the rows in the group of `(t, l)`, in frame order. */
  function GroupIndices(rows: seq<TrafficRow>, topology: Option<map<CellId, string>>, t: real, l: string, n: nat): (ix: seq<nat>)
    requires n <= |rows|
    ensures |ix| <= n
    ensures forall k | 0 <= k < |ix| :: ix[k] < n && InLinkGroup(topology, rows[ix[k]], t, l)
  {
    if n == 0 then []
    else
      GroupIndices(rows, topology, t, l, n - 1)
        + (if InLinkGroup(topology, rows[n - 1], t, l) then [n - 1] else [])
  }

  /** Every row of the group below `n` is listed. */
  lemma {:induction false} GroupIndicesComplete(rows: seq<TrafficRow>, topology: Option<map<CellId, string>>, t: real, l: string, n: nat, j: nat)
    requires j < n <= |rows| && InLinkGroup(topology, rows[j], t, l)
    ensures j in GroupIndices(rows, topology, t, l, n)
  {
    if j < n - 1 {
      GroupIndicesComplete(rows, topology, t, l, n - 1, j);
    }
  }

  /** The rows sharing row `i`'s timestamp and link, row `i` among them. */
  function LinkGroup(rows: seq<TrafficRow>, topology: Option<map<CellId, string>>, i: nat): (g: seq<TrafficRow>)
    requires i < |rows|
    ensures |g| > 0 && rows[i] in g
  {
    var ix := GroupIndices(rows, topology, rows[i].timestamp, LinkOf(topology, rows[i].cellId), |rows|);
    GroupIndicesComplete(rows, topology, rows[i].timestamp, LinkOf(topology, rows[i].cellId), |rows|, i);
    var k :| 0 <= k < |ix| && ix[k] == i;
    var g := seq(|ix|, k requires 0 <= k < |ix| => rows[ix[k]]);
    assert g[k] == rows[i];
    g
  }

  /** The four link-level features a row receives from its group. */
  datatype LinkLoad = LinkLoad(
    totalThroughput: real,
    averageThroughput: real,
    cellCount: nat,
    congestionRatio: real)

  /** `link_total_throughput`, `link_avg_throughput`, `link_cell_count` and
      `link_congestion_ratio` of row `i`, merged back from its group:
      the sum, the mean and the number of throughputs, and the share of
      rows with packet loss. */
  function LinkLoadAt(rows: seq<TrafficRow>, topology: Option<map<CellId, string>>, i: nat): (ld: LinkLoad)
    requires i < |rows|
    ensures ld.cellCount == |LinkGroup(rows, topology, i)| >= 1
    ensures ld.totalThroughput == Sum(Throughputs(LinkGroup(rows, topology, i)))
    ensures ld.averageThroughput == ld.totalThroughput / ld.cellCount as real
    ensures ld.congestionRatio == CountTrue(Flags(LinkGroup(rows, topology, i))) as real / ld.cellCount as real
    ensures 0.0 <= ld.congestionRatio <= 1.0
  {
    var g := LinkGroup(rows, topology, i);
    var n, hot := |g|, CountTrue(Flags(g));
    FractionBounds(hot, n);
    LinkLoad(Sum(Throughputs(g)), Mean(Throughputs(g)), n, hot as real / n as real)
  }

  /** A row of the group belongs to it exactly when it has the row's
      timestamp and link; every row of the group therefore receives the same
      load; and without a topology the group is the rows of the same cell at
      the same timestamp. */
  lemma LinkGroupMembers(rows: seq<TrafficRow>, topology: Option<map<CellId, string>>, i: nat, j: nat)
    requires i < |rows| && j < |rows|
    ensures rows[j] in LinkGroup(rows, topology, i) <==>
      rows[j].timestamp == rows[i].timestamp && LinkOf(topology, rows[j].cellId) == LinkOf(topology, rows[i].cellId)
    ensures InLinkGroup(topology, rows[j], rows[i].timestamp, LinkOf(topology, rows[i].cellId)) ==>
      LinkLoadAt(rows, topology, j) == LinkLoadAt(rows, topology, i)
    ensures topology.None? ==>
      (rows[j] in LinkGroup(rows, topology, i) <==> rows[j].timestamp == rows[i].timestamp && rows[j].cellId == rows[i].cellId)
  {
    var t, l := rows[i].timestamp, LinkOf(topology, rows[i].cellId);
    if InLinkGroup(topology, rows[j], t, l) {
      GroupIndicesComplete(rows, topology, t, l, |rows|, j);
      var ix := GroupIndices(rows, topology, t, l, |rows|);
      var k :| 0 <= k < |ix| && ix[k] == j;
      assert LinkGroup(rows, topology, i)[k] == rows[j];
    }
  }

  /** The mean throughput of a group lies between its smallest and largest throughput. */
  lemma LinkAverageBounds(rows: seq<TrafficRow>, topology: Option<map<CellId, string>>, i: nat)
    requires i < |rows|
    ensures Min(Throughputs(LinkGroup(rows, topology, i))) <= LinkLoadAt(rows, topology, i).averageThroughput
      <= Max(Throughputs(LinkGroup(rows, topology, i)))
  {
    MeanBetweenMinAndMax(Throughputs(LinkGroup(rows, topology, i)));
  }

  // ---------------------------------------------------------------------------
  // Filling missing values (`ffill().bfill()` per cell, then `fillna(0)`)
  // ---------------------------------------------------------------------------

  /** `ffill()` of one cell's column: a missing entry takes the entry before
      it once that one is filled. */
  function ForwardFill(s: seq<Option<real>>): (r: seq<Option<real>>)
    ensures |r| == |s|
    ensures forall k | 0 <= k < |s| && s[k].Some? :: r[k] == s[k]
  {
    if |s| == 0 then []
    else
      var p := ForwardFill(s[..|s| - 1]);
      p + [if s[|s| - 1].Some? || |p| == 0 then s[|s| - 1] else p[|p| - 1]]
  }

  /** `bfill()` of one cell's column: a missing entry takes the entry after
      it once that one is filled. */
  function BackwardFill(s: seq<Option<real>>): (r: seq<Option<real>>)
    ensures |r| == |s|
    ensures forall k | 0 <= k < |s| && s[k].Some? :: r[k] == s[k]
  {
    if |s| == 0 then []
    else
      var q := BackwardFill(s[1..]);
      [if s[0].Some? || |q| == 0 then s[0] else q[0]] + q
  }

  /** The column after `ffill().bfill()` and `fillna(0)`. */
  function Fill(s: seq<Option<real>>): (r: seq<real>)
    ensures |r| == |s|
    ensures forall k | 0 <= k < |s| :: r[k] == 0.0 || Some(r[k]) in s
  {
    ForwardFillValues(s);
    BackwardFillValues(ForwardFill(s));
    var b := BackwardFill(ForwardFill(s));
    seq(|b|, k requires 0 <= k < |b| => if b[k].Some? then b[k].value else 0.0)
  }

  /** A forward fill only copies entries of the column. */
  lemma {:induction false} ForwardFillValues(s: seq<Option<real>>)
    ensures forall k | 0 <= k < |s| :: ForwardFill(s)[k].None? || ForwardFill(s)[k] in s
  {
    if |s| > 0 {
      var init := s[..|s| - 1];
      ForwardFillValues(init);
      forall k | 0 <= k < |s| ensures ForwardFill(s)[k].None? || ForwardFill(s)[k] in s {
        if k < |s| - 1 || s[|s| - 1].None? {
          var p := ForwardFill(init);
          if |p| > 0 && p[|p| - 1].Some? {
            assert p[|p| - 1] in init;
          }
          if k < |s| - 1 && p[k].Some? {
            assert p[k] in init;
          }
        }
      }
    }
  }

  /** A backward fill only copies entries of the column. */
  lemma {:induction false} BackwardFillValues(s: seq<Option<real>>)
    ensures forall k | 0 <= k < |s| :: BackwardFill(s)[k].None? || BackwardFill(s)[k] in s
  {
    if |s| > 0 {
      var tail := s[1..];
      BackwardFillValues(tail);
      forall k | 0 <= k < |s| ensures BackwardFill(s)[k].None? || BackwardFill(s)[k] in s {
        var q := BackwardFill(tail);
        if |q| > 0 && q[0].Some? {
          assert q[0] in tail;
        }
        if k > 0 && q[k - 1].Some? {
          assert q[k - 1] in tail;
        }
      }
    }
  }

  /** After a forward fill, an entry holds the last present entry at or
      before it, and is missing when there is none. */
  lemma {:induction false} ForwardFillFrom(s: seq<Option<real>>, j: nat, k: nat)
    requires j <= k < |s| && s[j].Some? && forall m | j < m <= k :: s[m].None?
    ensures ForwardFill(s)[k] == s[j]
    decreases |s|
  {
    var p := ForwardFill(s[..|s| - 1]);
    assert ForwardFill(s) == p + [if s[|s| - 1].Some? || |p| == 0 then s[|s| - 1] else p[|p| - 1]];
    if k < |s| - 1 {
      ForwardFillFrom(s[..|s| - 1], j, k);
    } else if j < k {
      ForwardFillFrom(s[..|s| - 1], j, k - 1);
    }
  }

  lemma {:induction false} ForwardFillMissing(s: seq<Option<real>>, k: nat)
    requires k < |s| && forall m | 0 <= m <= k :: s[m].None?
    ensures ForwardFill(s)[k].None?
    decreases |s|
  {
    var p := ForwardFill(s[..|s| - 1]);
    assert ForwardFill(s) == p + [if s[|s| - 1].Some? || |p| == 0 then s[|s| - 1] else p[|p| - 1]];
    if k < |s| - 1 {
      ForwardFillMissing(s[..|s| - 1], k);
    } else if k > 0 {
      ForwardFillMissing(s[..|s| - 1], k - 1);
    }
  }

  /** After a backward fill, an entry holds the first present entry at or
      after it, and is missing when there is none. */
  lemma {:induction false} BackwardFillFrom(s: seq<Option<real>>, k: nat, j: nat)
    requires k <= j < |s| && s[j].Some? && forall m | k <= m < j :: s[m].None?
    ensures BackwardFill(s)[k] == s[j]
    decreases |s|
  {
    var q := BackwardFill(s[1..]);
    assert BackwardFill(s) == [if s[0].Some? || |q| == 0 then s[0] else q[0]] + q;
    if k > 0 {
      BackwardFillFrom(s[1..], k - 1, j - 1);
    } else if j > 0 {
      BackwardFillFrom(s[1..], 0, j - 1);
    }
  }

  lemma {:induction false} BackwardFillMissing(s: seq<Option<real>>, k: nat)
    requires k < |s| && forall m | k <= m < |s| :: s[m].None?
    ensures BackwardFill(s)[k].None?
    decreases |s|
  {
    var q := BackwardFill(s[1..]);
    assert BackwardFill(s) == [if s[0].Some? || |q| == 0 then s[0] else q[0]] + q;
    if k > 0 {
      BackwardFillMissing(s[1..], k - 1);
    } else if |s| > 1 {
      BackwardFillMissing(s[1..], 0);
    }
  }

  /** A present entry is kept by the fill. */
  lemma FillPresent(s: seq<Option<real>>, k: nat)
    requires k < |s| && s[k].Some?
    ensures Fill(s)[k] == s[k].value
  {
    ForwardFillFrom(s, k, k);
    BackwardFillFrom(ForwardFill(s), k, k);
  }

  /** A missing entry after a present one takes the last present entry before it. */
  lemma FillFromBefore(s: seq<Option<real>>, j: nat, k: nat)
    requires j < k < |s| && s[j].Some? && forall m | j < m <= k :: s[m].None?
    ensures Fill(s)[k] == s[j].value
  {
    ForwardFillFrom(s, j, k);
    BackwardFillFrom(ForwardFill(s), k, k);
  }

  /** A missing entry with nothing present before it takes the first present
      entry after it. */
  lemma FillFromAfter(s: seq<Option<real>>, k: nat, j: nat)
    requires k < j < |s| && s[j].Some? && forall m | 0 <= m < j :: s[m].None?
    ensures Fill(s)[k] == s[j].value
  {
    var f := ForwardFill(s);
    ForwardFillFrom(s, j, j);
    forall m | k <= m < j ensures f[m].None? {
      ForwardFillMissing(s, m);
    }
    BackwardFillFrom(f, k, j);
  }

  /** A column missing everywhere is filled with zeros. */
  lemma FillAllMissing(s: seq<Option<real>>, k: nat)
    requires k < |s| && forall m | 0 <= m < |s| :: s[m].None?
    ensures Fill(s)[k] == 0.0
  {
    var f := ForwardFill(s);
    forall m | k <= m < |f| ensures f[m].None? {
      ForwardFillMissing(s, m);
    }
    BackwardFillMissing(f, k);
  }

  /** One cell's `shift(n)` column of values `v`: missing on the first `n` entries. */
  function LagColumn(v: seq<real>, n: nat): (c: seq<Option<real>>)
    ensures |c| == |v|
    ensures forall k | 0 <= k < |v| :: c[k].None? <==> k < n
  {
    seq(|v|, k requires 0 <= k < |v| => if k >= n then Some(v[k - n]) else None)
  }

  /** Filling a lag column of a cell with more than `n` rows gives the
      cell's first value on its first `n` rows and the lagged value after
      them. */
  lemma LagColumnFilled(v: seq<real>, n: nat, k: nat)
    requires n < |v| && k < |v|
    ensures Fill(LagColumn(v, n))[k] == if k < n then v[0] else v[k - n]
  {
    var c := LagColumn(v, n);
    if k < n {
      FillFromAfter(c, k, n);
    } else {
      FillPresent(c, k);
    }
  }
}
