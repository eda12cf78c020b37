/** Pairwise congestion correlation: for two cells, the number of timestamps
    at which both are congested divided by the smaller of their two counts of
    congested timestamps (0 when either count is 0). */
module Correlation {
  import opened Wrappers
  import opened Seqs
  import opened Frames

  type Matrix = map<CellId, map<CellId, real>>

  const RequiredColumns: seq<string> := ["timestamp", "cell_id", "is_congested"]

  /** `df["cell_id"].unique().tolist()`. */
  function CellIds(rows: seq<TrafficRow>): (ids: seq<CellId>)
    ensures Distinct(ids)
    ensures forall c :: c in ids <==> exists i :: 0 <= i < |rows| && rows[i].cellId == c
  {
    var column := seq(|rows|, i requires 0 <= i < |rows| => rows[i].cellId);
    forall c ensures c in column <==> exists i :: 0 <= i < |rows| && rows[i].cellId == c {
      if c in column {
        var i :| 0 <= i < |column| && column[i] == c;
      }
      if i :| 0 <= i < |rows| && rows[i].cellId == c {
        assert column[i] == c;
      }
    }
    Unique(column)
  }

  /** The set of timestamps at which `cell` is flagged congested. */
  function CongestedTimes(rows: seq<TrafficRow>, cell: CellId): set<real>
  {
    set i | 0 <= i < |rows| && rows[i].cellId == cell && rows[i].isCongested :: rows[i].timestamp
  }

  /** `overlap / min_count`, or 0 when `min_count == 0`. */
  function Corr(ta: set<real>, tb: set<real>): (c: real)
    ensures c == 0.0 <==> ta * tb == {}
  {
    var minCount := if |ta| <= |tb| then |ta| else |tb|;
    if minCount == 0 then 0.0 else |ta * tb| as real / minCount as real
  }

  /** The inner dict of cell `a`: every other cell of `cellIds`, and nothing
      else, mapped to its correlation with `a`. */
  ghost predicate IsCorrelationRow(rows: seq<TrafficRow>, cellIds: seq<CellId>, a: CellId, inner: map<CellId, real>)
  {
    && (forall b :: b in inner <==> b in cellIds && b != a)
    && (forall b | b in inner :: inner[b] == Corr(CongestedTimes(rows, a), CongestedTimes(rows, b)))
  }

  /** What `compute_congestion_correlation` returns on a frame with the required
      columns: one inner dict per cell of the frame. */
  ghost predicate IsCorrelationMatrix(rows: seq<TrafficRow>, m: Matrix)
  {
    && (forall a :: a in m <==> a in CellIds(rows))
    && (forall a | a in m :: IsCorrelationRow(rows, CellIds(rows), a, m[a]))
  }

  /** `compute_congestion_correlation`. */
  method ComputeCongestionCorrelation(df: Frame<TrafficRow>) returns (r: Result<Matrix>)
    ensures MissingColumns(RequiredColumns, df.columns) != [] <==> r.Failure?
    ensures r.Failure? ==> r.error == KeyError(MissingColumns(RequiredColumns, df.columns))
    ensures r.Success? ==> IsCorrelationMatrix(df.rows, r.value)
  {
    var missing := MissingColumns(RequiredColumns, df.columns);
    if missing != [] {
      return Failure(KeyError(missing));
    }
    var cellIds := CellIds(df.rows);
    var congested := CongestedTimestamps(df.rows, cellIds);
    var matrix := CorrelationLoop(df.rows, cellIds, congested);
    return Success(matrix);
  }

  /** The first loop of `compute_congestion_correlation`: each cell's set of
      congested timestamps. */
  method CongestedTimestamps(rows: seq<TrafficRow>, cellIds: seq<CellId>) returns (congested: map<CellId, set<real>>)
    ensures forall c :: c in congested <==> c in cellIds
    ensures forall c | c in congested :: congested[c] == CongestedTimes(rows, c)
  {
    congested := map[];
    for i := 0 to |cellIds|
      invariant forall c :: c in congested <==> c in cellIds[..i]
      invariant forall c | c in congested :: congested[c] == CongestedTimes(rows, c)
    {
      congested := congested[cellIds[i] := CongestedTimes(rows, cellIds[i])];
    }
    assert cellIds[..|cellIds|] == cellIds;
  }

  /** The matrix holds the correlation row of each cell of `done`, and no other row. */
  ghost predicate RowsFor(rows: seq<TrafficRow>, cellIds: seq<CellId>, done: seq<CellId>, matrix: Matrix)
  {
    && (forall a :: a in matrix <==> a in done)
    && forall a | a in matrix :: IsCorrelationRow(rows, cellIds, a, matrix[a])
  }

  /** Storing the row of the next cell extends `done` by that cell. */
  lemma AddRow(rows: seq<TrafficRow>, cellIds: seq<CellId>, i: nat, matrix: Matrix, inner: map<CellId, real>)
    requires i < |cellIds| && RowsFor(rows, cellIds, cellIds[..i], matrix)
    requires IsCorrelationRow(rows, cellIds, cellIds[i], inner)
    ensures RowsFor(rows, cellIds, cellIds[..i + 1], matrix[cellIds[i] := inner])
  {
    var m := matrix[cellIds[i] := inner];
    forall a | a in m ensures IsCorrelationRow(rows, cellIds, a, m[a]) {
      if a != cellIds[i] { assert m[a] == matrix[a]; }
    }
    assert cellIds[..i + 1] == cellIds[..i] + [cellIds[i]];
  }

  /** The outer loop of `compute_congestion_correlation`: one inner dict per cell. */
  method CorrelationLoop(rows: seq<TrafficRow>, cellIds: seq<CellId>, congested: map<CellId, set<real>>)
    returns (matrix: Matrix)
    requires forall c :: c in congested <==> c in cellIds
    requires forall c | c in congested :: congested[c] == CongestedTimes(rows, c)
    ensures forall a :: a in matrix <==> a in cellIds
    ensures forall a | a in matrix :: IsCorrelationRow(rows, cellIds, a, matrix[a])
  {
    matrix := map[];
    for i := 0 to |cellIds|
      invariant RowsFor(rows, cellIds, cellIds[..i], matrix)
    {
      var cellA := cellIds[i];
      var inner := CorrelationRow(rows, cellIds, congested, cellA);
      AddRow(rows, cellIds, i, matrix, inner);
      matrix := matrix[cellA := inner];
    }
    assert cellIds[..|cellIds|] == cellIds;
  }

  /** The inner loop of `compute_congestion_correlation`: the correlations of
      `cellA` with every other cell. */
  method CorrelationRow(rows: seq<TrafficRow>, cellIds: seq<CellId>, congested: map<CellId, set<real>>, cellA: CellId)
    returns (inner: map<CellId, real>)
    requires cellA in congested
    requires forall c :: c in cellIds ==> c in congested
    requires forall c | c in congested :: congested[c] == CongestedTimes(rows, c)
    ensures IsCorrelationRow(rows, cellIds, cellA, inner)
  {
    var timestampsA := congested[cellA];
    var countA := |timestampsA|;
    inner := map[];
    for j := 0 to |cellIds|
      invariant forall b :: b in inner <==> b in cellIds[..j] && b != cellA
      invariant forall b | b in inner :: inner[b] == Corr(timestampsA, CongestedTimes(rows, b))
    {
      var cellB := cellIds[j];
      if cellA == cellB {
        continue;
      }
      var timestampsB := congested[cellB];
      var countB := |timestampsB|;
      var overlap := |timestampsA * timestampsB|;
      var minCount := if countA <= countB then countA else countB;
      var correlation: real;
      if minCount == 0 {
        correlation := 0.0;
      } else {
        correlation := overlap as real / minCount as real;
      }
      inner := inner[cellB := correlation];
    }
    assert cellIds[..|cellIds|] == cellIds;
  }

  /** Every correlation lies in `[0, 1]`, because both cells' shared timestamps
      are among each cell's own. */
  lemma CorrBounds(ta: set<real>, tb: set<real>)
    ensures 0.0 <= Corr(ta, tb) <= 1.0
  {
    SubsetCardinality(ta * tb, ta);
    SubsetCardinality(ta * tb, tb);
  }

  lemma CorrSymmetric(ta: set<real>, tb: set<real>)
    ensures Corr(ta, tb) == Corr(tb, ta)
  {
    assert ta * tb == tb * ta;
  }

  /** A correlation is 1 exactly when one cell's congested timestamps are all
      among the other's and the smaller set is not empty. */
  lemma CorrOneIffContained(ta: set<real>, tb: set<real>)
    ensures Corr(ta, tb) == 1.0 <==> (ta <= tb && ta != {}) || (tb <= ta && tb != {})
  {
    if |ta| <= |tb| {
      CorrOneWhenSmaller(ta, tb);
    } else {
      CorrOneWhenSmaller(tb, ta);
      CorrSymmetric(ta, tb);
    }
  }

  lemma CorrOneWhenSmaller(ta: set<real>, tb: set<real>)
    requires |ta| <= |tb|
    ensures Corr(ta, tb) == 1.0 <==> (ta <= tb && ta != {}) || (tb <= ta && tb != {})
  {
    SubsetCardinality(ta * tb, ta);
    if tb <= ta { SubsetCardinality(tb, ta); }
    if |ta| > 0 {
      RatioOne(|ta * tb|, |ta|);
      if ta <= tb { assert ta * tb == ta; }
    }
  }

  lemma RatioOne(k: nat, m: nat)
    requires m > 0
    ensures k as real / m as real == 1.0 <==> k == m
  {
    if k as real / m as real == 1.0 {
      assert k as real == m as real * (k as real / m as real);
    }
  }

  /** The properties of a correlation matrix as a whole: no self-pairs, one
      entry per other cell, values in `[0, 1]`, symmetry, zero for a cell that is
      never congested. */
  lemma MatrixProperties(rows: seq<TrafficRow>, m: Matrix, a: CellId, b: CellId)
    requires IsCorrelationMatrix(rows, m)
    requires a in m && b in m[a]
    ensures a !in m[a]
    ensures b in m && a in m[b] && m[a][b] == m[b][a]
    ensures 0.0 <= m[a][b] <= 1.0
    ensures CongestedTimes(rows, a) == {} || CongestedTimes(rows, b) == {} ==> m[a][b] == 0.0
  {
    CorrSymmetric(CongestedTimes(rows, a), CongestedTimes(rows, b));
    CorrBounds(CongestedTimes(rows, a), CongestedTimes(rows, b));
  }
}
