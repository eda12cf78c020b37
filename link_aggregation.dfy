/** Slot-to-link aggregation: each cell's slot traffic is credited to the link
    the topology assigns it (`Unknown_Link` when it has none), summed per slot
    and link, and laid out as one row per slot with one `<link>_bits` column
    per link, a missing (slot, link) pair reading 0. */
module LinkAggregation {
  import opened Wrappers
  import opened Seqs
  import opened Strings
  import opened Sorting
  import opened Frames

  const UnknownLink := "Unknown_Link"
  const BitsSuffix := "_bits"
  const SlotIdColumn := "slot_id"
  const RequiredColumns: seq<string> := ["slot_id", "cell_id", "slot_throughput_bits"]

  /** `data["cell_id"].map(topology).fillna("Unknown_Link")` for one cell. */
  function LinkOf(topology: map<CellId, string>, c: CellId): string
  {
    if c in topology then topology[c] else UnknownLink
  }

  /** `f"{col}_bits"`. */
  function ColumnName(link: string): (col: string)
    ensures EndsWith(col, BitsSuffix) && |col| == |link| + |BitsSuffix|
  {
    link + BitsSuffix
  }

  /** The link a `<link>_bits` column belongs to. */
  function LinkOfColumn(col: string): string
    requires |col| >= |BitsSuffix|
  {
    col[..|col| - |BitsSuffix|]
  }

  lemma ColumnNameInverse(link: string)
    ensures LinkOfColumn(ColumnName(link)) == link
  {
    assert ColumnName(link)[..|link|] == link;
  }

  lemma ColumnNameInjective(a: string, b: string)
    requires ColumnName(a) == ColumnName(b)
    ensures a == b
  {
    ColumnNameInverse(a);
    ColumnNameInverse(b);
  }

  /** One row of the wide frame: the slot id and the value of each link column. */
  datatype LinkRow = LinkRow(slotId: int, bits: map<string, real>)

  /** The wide frame: its column names in order, and its rows. */
  datatype LinkTable = LinkTable(columns: seq<string>, rows: seq<LinkRow>)

  /** A cell-slot row's bits if it is in slot `s` on link `link`, else nothing. */
  function LinkContribution(topology: map<CellId, string>, s: int, link: string): SlotRow -> real
  {
    (r: SlotRow) => if r.slotId == s && LinkOf(topology, r.cellId) == link then r.slotThroughputBits else 0.0
  }

  /** The traffic of one link in one slot: the bits of every cell it carries. */
  function LinkBits(rows: seq<SlotRow>, topology: map<CellId, string>, s: int, link: string): real
  {
    SumOf(rows, LinkContribution(topology, s, link))
  }

  function SlotContribution(s: int): SlotRow -> real
  {
    (r: SlotRow) => if r.slotId == s then r.slotThroughputBits else 0.0
  }

  /** The traffic of all cells in one slot. */
  function SlotBits(rows: seq<SlotRow>, s: int): real
  {
    SumOf(rows, SlotContribution(s))
  }

  /** The link of each row, in order. */
  function RowLinks(rows: seq<SlotRow>, topology: map<CellId, string>): (all: seq<string>)
    ensures |all| == |rows| && forall i :: 0 <= i < |rows| ==> all[i] == LinkOf(topology, rows[i].cellId)
  {
    seq(|rows|, i requires 0 <= i < |rows| => LinkOf(topology, rows[i].cellId))
  }

  /** A link is among the rows' links exactly when some row's cell is on it. */
  lemma RowLinksMembers(rows: seq<SlotRow>, topology: map<CellId, string>)
    ensures forall l :: l in RowLinks(rows, topology) <==>
      exists i :: 0 <= i < |rows| && LinkOf(topology, rows[i].cellId) == l
  {
    var all := RowLinks(rows, topology);
    forall l ensures l in all <==> exists i :: 0 <= i < |rows| && LinkOf(topology, rows[i].cellId) == l {
      if l in all {
        var i :| 0 <= i < |all| && all[i] == l;
      }
      if exists i :: 0 <= i < |rows| && LinkOf(topology, rows[i].cellId) == l {
        var i :| 0 <= i < |rows| && LinkOf(topology, rows[i].cellId) == l;
        assert all[i] == l;
      }
    }
  }

  /** The pivot's columns before renaming: the distinct links, sorted. */
  function LinksOfRows(rows: seq<SlotRow>, topology: map<CellId, string>): (links: seq<string>)
    ensures Distinct(links) && SortedBy(links, LexLe)
    ensures forall l :: l in links <==> exists i :: 0 <= i < |rows| && LinkOf(topology, rows[i].cellId) == l
  {
    var all := RowLinks(rows, topology);
    var u := Unique(all);
    LexLeIsTotalPreorder();
    var links := Sort(u, LexLe);
    DistinctPermutation(u, links);
    PermutationMembers(u, links);
    RowLinksMembers(rows, topology);
    links
  }

  predicate IntLe(a: int, b: int)
  {
    a <= b
  }

  /** The pivot's index: the distinct slot ids, ascending. */
  function SlotsOfRows(rows: seq<SlotRow>): (slots: seq<int>)
    ensures Distinct(slots) && SortedBy(slots, IntLe)
    ensures forall s :: s in slots <==> exists i :: 0 <= i < |rows| && rows[i].slotId == s
  {
    var all := seq(|rows|, i requires 0 <= i < |rows| => rows[i].slotId);
    var u := Unique(all);
    var slots := Sort(u, IntLe);
    DistinctPermutation(u, slots);
    PermutationMembers(u, slots);
    assert forall s :: s in all <==> exists i :: 0 <= i < |rows| && rows[i].slotId == s by {
      forall s ensures s in all <==> exists i :: 0 <= i < |rows| && rows[i].slotId == s {
        if s in all {
          var i :| 0 <= i < |all| && all[i] == s;
        }
        if exists i :: 0 <= i < |rows| && rows[i].slotId == s {
          var i :| 0 <= i < |rows| && rows[i].slotId == s;
          assert all[i] == s;
        }
      }
    }
    slots
  }

  /** The rename map applied to the pivot's columns. */
  function ColumnNames(links: seq<string>): (names: seq<string>)
    ensures |names| == |links| && forall k :: 0 <= k < |links| ==> names[k] == ColumnName(links[k])
    ensures forall c | c in names :: |c| >= |BitsSuffix|
  {
    seq(|links|, k requires 0 <= k < |links| => ColumnName(links[k]))
  }

  /** One row of the pivot: every link column of slot `s`, 0 where the link
      carried nothing in that slot. */
  function PivotRow(rows: seq<SlotRow>, topology: map<CellId, string>, names: seq<string>, s: int): LinkRow
    requires forall c | c in names :: |c| >= |BitsSuffix|
  {
    LinkRow(s, map c | c in names :: LinkBits(rows, topology, s, LinkOfColumn(c)))
  }

  /** `aggregate_slot_traffic_by_link`: a missing required column raises
      `KeyError`; a link named `slot_id` collides with the pivot's index when
      it is reset (pandas raises `ValueError`); otherwise the slots and link
      columns of the pivot, with the columns renamed and sorted. */
  function AggregateSlotTrafficByLink(slotDf: Frame<SlotRow>, topology: map<CellId, string>): (r: Result<LinkTable>)
    ensures var missing := MissingColumns(RequiredColumns, slotDf.columns);
      && (missing != [] <==> r == Failure(KeyError(missing)))
      && (r.Failure? && r.error.ValueError? <==> missing == [] && SlotIdColumn in LinksOfRows(slotDf.rows, topology))
    ensures r.Success? ==> |r.value.columns| > 0 && r.value.columns[0] == SlotIdColumn
  {
    var missing := MissingColumns(RequiredColumns, slotDf.columns);
    if missing != [] then Failure(KeyError(missing))
    else
      var links := LinksOfRows(slotDf.rows, topology);
      if SlotIdColumn in links then Failure(ValueError("cannot insert slot_id, already exists"))
      else
        var names := ColumnNames(links);
        LexLeIsTotalPreorder();
        var columns := Sort(names, LexLe);
        var slots := SlotsOfRows(slotDf.rows);
        Success(LinkTable([SlotIdColumn] + columns,
                          seq(|slots|, i requires 0 <= i < |slots| => PivotRow(slotDf.rows, topology, names, slots[i]))))
  }

  /** What a successful aggregation is made of: the renamed pivot columns,
      sorted, and one pivot row per slot id, in order. */
  lemma AggregateShape(slotDf: Frame<SlotRow>, topology: map<CellId, string>)
    requires AggregateSlotTrafficByLink(slotDf, topology).Success?
    ensures var t := AggregateSlotTrafficByLink(slotDf, topology).value;
      var names := ColumnNames(LinksOfRows(slotDf.rows, topology));
      var slots := SlotsOfRows(slotDf.rows);
      && SlotIdColumn !in LinksOfRows(slotDf.rows, topology)
      && multiset(t.columns[1..]) == multiset(names) && SortedBy(t.columns[1..], LexLe)
      && |t.rows| == |slots|
      && forall i | 0 <= i < |slots| :: t.rows[i] == PivotRow(slotDf.rows, topology, names, slots[i])
  {
  }

  lemma AggregateRowSlots(slotDf: Frame<SlotRow>, topology: map<CellId, string>)
    requires AggregateSlotTrafficByLink(slotDf, topology).Success?
    ensures var out := AggregateSlotTrafficByLink(slotDf, topology).value.rows;
      var slots := SlotsOfRows(slotDf.rows);
      |out| == |slots| && forall i | 0 <= i < |slots| :: out[i].slotId == slots[i]
  {
  }

  /** The renamed columns, sorted: one per link, strictly ascending. */
  lemma {:induction false} SortedColumnNames(links: seq<string>, columns: seq<string>)
    requires Distinct(links)
    requires multiset(columns) == multiset(ColumnNames(links)) && SortedBy(columns, LexLe)
    ensures forall c :: c in columns <==> |c| >= |BitsSuffix| && EndsWith(c, BitsSuffix) && LinkOfColumn(c) in links
    ensures forall i, j | 0 <= i < j < |columns| :: LexLt(columns[i], columns[j])
  {
    var names := ColumnNames(links);
    PermutationMembers(names, columns);
    forall c ensures c in columns <==> |c| >= |BitsSuffix| && EndsWith(c, BitsSuffix) && LinkOfColumn(c) in links {
      if c in names {
        var k :| 0 <= k < |names| && names[k] == c;
        ColumnNameInverse(links[k]);
      }
      if |c| >= |BitsSuffix| && EndsWith(c, BitsSuffix) && LinkOfColumn(c) in links {
        var k :| 0 <= k < |links| && links[k] == LinkOfColumn(c);
        assert c == LinkOfColumn(c) + BitsSuffix;
        assert names[k] == c;
      }
    }
    assert Distinct(names) by {
      forall i, j | 0 <= i < j < |names| ensures names[i] != names[j] {
        if names[i] == names[j] { ColumnNameInjective(links[i], links[j]); }
      }
    }
    DistinctPermutation(names, columns);
  }

  /** The `<link>_bits` columns: one per link some cell is mapped to, strictly
      ascending in Python's string order. */
  lemma AggregateColumns(slotDf: Frame<SlotRow>, topology: map<CellId, string>)
    requires AggregateSlotTrafficByLink(slotDf, topology).Success?
    ensures var cols := AggregateSlotTrafficByLink(slotDf, topology).value.columns[1..];
      && (forall c :: c in cols <==>
            |c| >= |BitsSuffix| && EndsWith(c, BitsSuffix) && LinkOfColumn(c) in LinksOfRows(slotDf.rows, topology))
      && (forall i, j | 0 <= i < j < |cols| :: LexLt(cols[i], cols[j]))
      && SlotIdColumn !in cols
  {
    var t := AggregateSlotTrafficByLink(slotDf, topology).value;
    AggregateShape(slotDf, topology);
    SortedColumnNames(LinksOfRows(slotDf.rows, topology), t.columns[1..]);
    assert !EndsWith(SlotIdColumn, BitsSuffix);
  }

  /** One row per distinct slot id of the input, in ascending order. */
  lemma AggregateRows(slotDf: Frame<SlotRow>, topology: map<CellId, string>, t: LinkTable)
    requires AggregateSlotTrafficByLink(slotDf, topology) == Success(t)
    ensures forall i, j | 0 <= i < j < |t.rows| :: t.rows[i].slotId < t.rows[j].slotId
    ensures (set i | 0 <= i < |t.rows| :: t.rows[i].slotId) == (set j | 0 <= j < |slotDf.rows| :: slotDf.rows[j].slotId)
  {
    AggregateRowSlots(slotDf, topology);
    SlotRowsOfSlots(t.rows, SlotsOfRows(slotDf.rows), slotDf.rows);
  }

  lemma SlotRowsOfSlots(out: seq<LinkRow>, slots: seq<int>, rows: seq<SlotRow>)
    requires Distinct(slots) && SortedBy(slots, IntLe)
    requires forall s :: s in slots <==> exists i :: 0 <= i < |rows| && rows[i].slotId == s
    requires |out| == |slots| && forall i | 0 <= i < |slots| :: out[i].slotId == slots[i]
    ensures forall i, j | 0 <= i < j < |out| :: out[i].slotId < out[j].slotId
    ensures (set i | 0 <= i < |out| :: out[i].slotId) == (set j | 0 <= j < |rows| :: rows[j].slotId)
  {
    forall i, j | 0 <= i < j < |out| ensures out[i].slotId < out[j].slotId {
      assert IntLe(slots[i], slots[j]) && slots[i] != slots[j];
    }
    var a := set i | 0 <= i < |out| :: out[i].slotId;
    var b := set j | 0 <= j < |rows| :: rows[j].slotId;
    forall s | s in a ensures s in b {
      var i :| 0 <= i < |out| && out[i].slotId == s;
      assert slots[i] in slots;
    }
    forall s | s in b ensures s in a {
      var j :| 0 <= j < |rows| && rows[j].slotId == s;
      assert s in slots;
      var i :| 0 <= i < |slots| && slots[i] == s;
      assert out[i].slotId == s;
    }
  }

  /** Every slot row has a value for exactly the link columns (the pivot's
      `fillna(0)` leaves no gap), and that value is the link's traffic in
      the slot: the bits of every cell mapped to the link. */
  lemma AggregateValues(slotDf: Frame<SlotRow>, topology: map<CellId, string>)
    requires AggregateSlotTrafficByLink(slotDf, topology).Success?
    ensures var t := AggregateSlotTrafficByLink(slotDf, topology).value;
      && (forall i, c | 0 <= i < |t.rows| :: c in t.rows[i].bits <==> c in t.columns[1..])
      && (forall i, c | 0 <= i < |t.rows| && c in t.rows[i].bits ::
            |c| >= |BitsSuffix| && t.rows[i].bits[c] == LinkBits(slotDf.rows, topology, t.rows[i].slotId, LinkOfColumn(c)))
  {
    var t := AggregateSlotTrafficByLink(slotDf, topology).value;
    AggregateShape(slotDf, topology);
    PermutationMembers(ColumnNames(LinksOfRows(slotDf.rows, topology)), t.columns[1..]);
  }

  /** A link that carried nothing in a slot reads 0 there. */
  lemma NoTrafficReadsZero(rows: seq<SlotRow>, topology: map<CellId, string>, s: int, link: string)
    requires forall j :: 0 <= j < |rows| ==> rows[j].slotId != s || LinkOf(topology, rows[j].cellId) != link
    ensures LinkBits(rows, topology, s, link) == 0.0
  {
    SumOfZero(rows, LinkContribution(topology, s, link));
  }

  /** A cell the topology does not know is counted on `Unknown_Link`. */
  lemma UnmappedCellOnUnknownLink(slotDf: Frame<SlotRow>, topology: map<CellId, string>, j: int)
    requires AggregateSlotTrafficByLink(slotDf, topology).Success?
    requires 0 <= j < |slotDf.rows| && slotDf.rows[j].cellId !in topology
    ensures ColumnName(UnknownLink) in AggregateSlotTrafficByLink(slotDf, topology).value.columns[1..]
  {
    AggregateColumns(slotDf, topology);
    ColumnNameInverse(UnknownLink);
    assert LinkOf(topology, slotDf.rows[j].cellId) == UnknownLink;
  }

  /** The value a row holds in column `c`, 0 where it has none. */
  function ColumnValue(row: LinkRow): string -> real
  {
    (c: string) => if c in row.bits then row.bits[c] else 0.0
  }

  /** The traffic of every link of `links` in slot `s`, added up. */
  function LinksTotal(links: seq<string>, rows: seq<SlotRow>, topology: map<CellId, string>, s: int): real
  {
    if |links| == 0 then 0.0
    else LinksTotal(links[..|links| - 1], rows, topology, s) + LinkBits(rows, topology, s, links[|links| - 1])
  }

  lemma {:induction false} LinksTotalEmpty(links: seq<string>, topology: map<CellId, string>, s: int)
    ensures LinksTotal(links, [], topology, s) == 0.0
    decreases |links|
  {
    if |links| > 0 { LinksTotalEmpty(links[..|links| - 1], topology, s); }
  }

  /** One more cell-slot row adds its bits to the links' total, if it is in
      slot `s` and its link is one of them. */
  lemma {:induction false} LinksTotalSnoc(links: seq<string>, rows: seq<SlotRow>, r: SlotRow,
                                          topology: map<CellId, string>, s: int)
    requires Distinct(links)
    ensures LinksTotal(links, rows + [r], topology, s)
      == LinksTotal(links, rows, topology, s)
         + (if r.slotId == s && LinkOf(topology, r.cellId) in links then r.slotThroughputBits else 0.0)
    decreases |links|
  {
    if |links| > 0 {
      var l := links[|links| - 1];
      var init := links[..|links| - 1];
      assert (rows + [r])[..|rows|] == rows;
      assert LinkBits(rows + [r], topology, s, l) == LinkBits(rows, topology, s, l) + LinkContribution(topology, s, l)(r);
      assert Distinct(init);
      LinksTotalSnoc(init, rows, r, topology, s);
      assert links == init + [l];
      assert LinkOf(topology, r.cellId) in links <==> LinkOf(topology, r.cellId) in init || LinkOf(topology, r.cellId) == l;
      assert LinkOf(topology, r.cellId) == l ==> LinkOf(topology, r.cellId) !in init;
    }
  }

  /** Over a duplicate-free list holding the link of every row, the links'
      traffic in a slot adds up to the traffic of all cells in that slot. */
  lemma {:induction false} LinksConserve(links: seq<string>, rows: seq<SlotRow>, topology: map<CellId, string>, s: int)
    requires Distinct(links)
    requires forall j :: 0 <= j < |rows| ==> LinkOf(topology, rows[j].cellId) in links
    ensures LinksTotal(links, rows, topology, s) == SlotBits(rows, s)
    decreases |rows|
  {
    if |rows| == 0 {
      LinksTotalEmpty(links, topology, s);
    } else {
      var init := rows[..|rows| - 1];
      var r := rows[|rows| - 1];
      assert rows == init + [r];
      LinksConserve(links, init, topology, s);
      LinksTotalSnoc(links, init, r, topology, s);
    }
  }

  /** A row holding each link's traffic under the link's column sums, over
      those columns, to the links' total. */
  lemma {:induction false} ColumnsTotal(links: seq<string>, row: LinkRow, rows: seq<SlotRow>,
                                        topology: map<CellId, string>, s: int)
    requires forall k :: 0 <= k < |links| ==>
      ColumnName(links[k]) in row.bits && row.bits[ColumnName(links[k])] == LinkBits(rows, topology, s, links[k])
    ensures SumOf(ColumnNames(links), ColumnValue(row)) == LinksTotal(links, rows, topology, s)
    decreases |links|
  {
    if |links| > 0 {
      var init := links[..|links| - 1];
      assert ColumnNames(links)[..|links| - 1] == ColumnNames(init);
      ColumnsTotal(init, row, rows, topology, s);
    }
  }

  /** Conservation: in every slot row, the link columns add up to the
      traffic of all cells in that slot. */
  lemma SlotTrafficConserved(slotDf: Frame<SlotRow>, topology: map<CellId, string>, t: LinkTable, i: int)
    requires AggregateSlotTrafficByLink(slotDf, topology) == Success(t)
    requires 0 <= i < |t.rows|
    ensures SumOf(t.columns[1..], ColumnValue(t.rows[i])) == SlotBits(slotDf.rows, t.rows[i].slotId)
  {
    AggregateShape(slotDf, topology);
    var links := LinksOfRows(slotDf.rows, topology);
    var names := ColumnNames(links);
    var row := t.rows[i];
    var s := row.slotId;
    assert row == PivotRow(slotDf.rows, topology, names, SlotsOfRows(slotDf.rows)[i]);
    forall k | 0 <= k < |links|
      ensures ColumnName(links[k]) in row.bits && row.bits[ColumnName(links[k])] == LinkBits(slotDf.rows, topology, s, links[k])
    {
      assert names[k] == ColumnName(links[k]);
      ColumnNameInverse(links[k]);
    }
    ColumnsTotal(links, row, slotDf.rows, topology, s);
    SumOfPermutation(t.columns[1..], names, ColumnValue(row));
    LinksConserve(links, slotDf.rows, topology, s);
  }

  /** The `_bits` columns of `columns`, in order. */
  function BitsColumns(columns: seq<string>): (cols: seq<string>)
    ensures forall c :: c in cols <==> c in columns && EndsWith(c, BitsSuffix)
    ensures |cols| <= |columns|
  {
    if |columns| == 0 then []
    else
      var c := columns[|columns| - 1];
      BitsColumns(columns[..|columns| - 1]) + (if EndsWith(c, BitsSuffix) then [c] else [])
  }

  /** `get_link_columns`: the columns whose names end in `_bits`. */
  function GetLinkColumns(t: LinkTable): (cols: seq<string>)
    ensures forall c :: c in cols <==> c in t.columns && EndsWith(c, BitsSuffix)
    ensures |cols| <= |t.columns|
  {
    BitsColumns(t.columns)
  }

  /** The kept columns are a subsequence of `columns`: they sit at strictly
      increasing positions `ix`, and every `_bits` position is one of them. */
  lemma {:induction false} BitsColumnsSubsequence(columns: seq<string>) returns (ix: seq<nat>)
    ensures |ix| == |BitsColumns(columns)|
    ensures forall k | 0 <= k < |ix| :: ix[k] < |columns| && columns[ix[k]] == BitsColumns(columns)[k]
    ensures forall k, l | 0 <= k < l < |ix| :: ix[k] < ix[l]
    ensures forall p | 0 <= p < |columns| && EndsWith(columns[p], BitsSuffix) :: p in ix
  {
    if |columns| == 0 {
      ix := [];
    } else {
      var n := |columns| - 1;
      var init := columns[..n];
      var ix0 := BitsColumnsSubsequence(init);
      assert forall p | 0 <= p < n :: init[p] == columns[p];
      if EndsWith(columns[n], BitsSuffix) {
        ix := ix0 + [n];
      } else {
        ix := ix0;
      }
    }
  }

  /** `get_link_columns` keeps the table's `_bits` columns in table order, each
      as often as it occurs. */
  lemma GetLinkColumnsInOrder(t: LinkTable) returns (ix: seq<nat>)
    ensures |ix| == |GetLinkColumns(t)|
    ensures forall k | 0 <= k < |ix| :: ix[k] < |t.columns| && t.columns[ix[k]] == GetLinkColumns(t)[k]
    ensures forall k, l | 0 <= k < l < |ix| :: ix[k] < ix[l]
    ensures forall p | 0 <= p < |t.columns| && EndsWith(t.columns[p], BitsSuffix) :: p in ix
  {
    ix := BitsColumnsSubsequence(t.columns);
  }

  /** Columns that all end in `_bits` are kept as they are, in their order. */
  lemma {:induction false} BitsColumnsKeepsAll(columns: seq<string>)
    requires forall k :: 0 <= k < |columns| ==> EndsWith(columns[k], BitsSuffix)
    ensures BitsColumns(columns) == columns
  {
    if |columns| > 0 {
      BitsColumnsKeepsAll(columns[..|columns| - 1]);
    }
  }

  /** Filtering a concatenation filters each part. */
  lemma {:induction false} BitsColumnsAppend(a: seq<string>, b: seq<string>)
    ensures BitsColumns(a + b) == BitsColumns(a) + BitsColumns(b)
    decreases |b|
  {
    if |b| == 0 {
      assert a + b == a;
    } else {
      assert (a + b)[..|a + b| - 1] == a + b[..|b| - 1];
      BitsColumnsAppend(a, b[..|b| - 1]);
    }
  }

  lemma BitsColumnsAfterSlotId(cols: seq<string>)
    requires forall c | c in cols :: EndsWith(c, BitsSuffix)
    ensures BitsColumns([SlotIdColumn] + cols) == cols
  {
    forall k | 0 <= k < |cols| ensures EndsWith(cols[k], BitsSuffix) {
      assert cols[k] in cols;
    }
    BitsColumnsKeepsAll(cols);
    BitsColumnsAppend([SlotIdColumn], cols);
    assert BitsColumns([SlotIdColumn]) == [] by {
      assert [SlotIdColumn][..0] == [];
      assert !EndsWith(SlotIdColumn, BitsSuffix);
    }
  }

  /** On the aggregation's output, the link columns are exactly the columns
      after `slot_id`, in the same order. */
  lemma AggregateLinkColumns(slotDf: Frame<SlotRow>, topology: map<CellId, string>, t: LinkTable)
    requires AggregateSlotTrafficByLink(slotDf, topology) == Success(t)
    ensures GetLinkColumns(t) == t.columns[1..]
  {
    AggregateColumns(slotDf, topology);
    BitsColumnsAfterSlotId(t.columns[1..]);
    assert t.columns == [SlotIdColumn] + t.columns[1..];
  }

  /** Statistics of one link column. The minimum, maximum and mean of an
      empty column are NaN in pandas; they are `None` here. */
  datatype LinkStats = LinkStats(minBits: Option<real>, maxBits: Option<real>, meanBits: Option<real>, totalBits: real)

  /** The summary dictionary: `total_slots`, and the statistics of each link. */
  datatype LinkSummary = LinkSummary(totalSlots: nat, links: map<string, LinkStats>)

  /** Every row holds a value in column `c`. */
  predicate InEveryRow(t: LinkTable, c: string)
  {
    forall i | 0 <= i < |t.rows| :: c in t.rows[i].bits
  }

  /** Every row holds a value in every `_bits` column. */
  predicate HasLinkValues(t: LinkTable)
  {
    forall c | c in t.columns && EndsWith(c, BitsSuffix) :: InEveryRow(t, c)
  }

  /** `link_traffic_df[col]`. */
  function Column(t: LinkTable, c: string): (values: seq<real>)
    requires InEveryRow(t, c)
    ensures |values| == |t.rows| && forall i | 0 <= i < |t.rows| :: values[i] == t.rows[i].bits[c]
  {
    seq(|t.rows|, i requires 0 <= i < |t.rows| => t.rows[i].bits[c])
  }

  /** The `min`, `max`, `mean` and `sum` of a column. */
  function StatsOf(values: seq<real>): (st: LinkStats)
    ensures st.totalBits == Sum(values)
    ensures st.minBits.None? <==> |values| == 0
    ensures st.maxBits.None? <==> |values| == 0
    ensures st.meanBits.None? <==> |values| == 0
    ensures |values| > 0 ==>
      && (forall i | 0 <= i < |values| :: st.minBits.value <= values[i] <= st.maxBits.value)
      && st.minBits.value in values && st.maxBits.value in values
  {
    if |values| == 0 then LinkStats(None, None, None, 0.0)
    else LinkStats(Some(Min(values)), Some(Max(values)), Some(Mean(values)), Sum(values))
  }

  /** Of a non-empty column, the mean lies between the minimum and the maximum. */
  lemma StatsOrdered(values: seq<real>)
    requires |values| > 0
    ensures var st := StatsOf(values);
      && st.minBits.value <= st.meanBits.value <= st.maxBits.value
  {
    var st := StatsOf(values);
    assert st.minBits.value == Min(values) && st.maxBits.value == Max(values);
    assert st.meanBits.value == Mean(values) && st.totalBits == Sum(values);
    MeanBetweenMinAndMax(values);
  }

  /** Of a non-empty column, the mean times the number of slots is the total. */
  lemma StatsMeanShare(values: seq<real>)
    requires |values| > 0
    ensures StatsOf(values).meanBits.value * |values| as real == StatsOf(values).totalBits
  {
    MeanTimesCount(values);
  }

  lemma MeanTimesCount(values: seq<real>)
    requires |values| > 0
    ensures Mean(values) * |values| as real == Sum(values)
  {
    var n := |values| as real;
    assert Mean(values) == Sum(values) / n;
  }

  /** `col.replace("_bits", "")`. */
  function LinkName(col: string): string
  {
    ReplaceAll(col, BitsSuffix, "")
  }

  /** A dictionary filled by a loop over the columns `cols`, in order, that
      stores `f` of each column under the column's link name: a later column
      whose name reduces to the same link overwrites. */
  function PerLink<V>(t: LinkTable, cols: seq<string>, f: seq<real> -> V): (r: map<string, V>)
    requires forall c | c in cols :: InEveryRow(t, c)
    ensures forall c | c in cols :: LinkName(c) in r
  {
    if |cols| == 0 then map[]
    else
      var c := cols[|cols| - 1];
      PerLink(t, cols[..|cols| - 1], f)[LinkName(c) := f(Column(t, c))]
  }

  /** The dictionary `get_link_traffic_summary` returns. */
  function SummaryOf(t: LinkTable): LinkSummary
    requires HasLinkValues(t)
  {
    LinkSummary(|t.rows|, PerLink(t, GetLinkColumns(t), StatsOf))
  }

  /** `get_link_traffic_summary`. */
  method GetLinkTrafficSummary(t: LinkTable) returns (summary: LinkSummary)
    requires HasLinkValues(t)
    ensures summary == SummaryOf(t)
  {
    var linkColumns := GetLinkColumns(t);
    var links: map<string, LinkStats> := map[];
    for k := 0 to |linkColumns|
      invariant links == PerLink(t, linkColumns[..k], StatsOf)
    {
      var col := linkColumns[k];
      PerLinkSnoc(t, linkColumns, StatsOf, k);
      links := links[LinkName(col) := StatsOf(Column(t, col))];
    }
    assert linkColumns[..|linkColumns|] == linkColumns;
    summary := LinkSummary(|t.rows|, links);
  }

  lemma PerLinkSnoc<V>(t: LinkTable, cols: seq<string>, f: seq<real> -> V, k: int)
    requires forall c | c in cols :: InEveryRow(t, c)
    requires 0 <= k < |cols|
    ensures PerLink(t, cols[..k + 1], f) == PerLink(t, cols[..k], f)[LinkName(cols[k]) := f(Column(t, cols[k]))]
  {
    assert cols[..k + 1][..k] == cols[..k];
  }

  /** The link name of each column, in order. */
  function LinkNames(cols: seq<string>): (names: seq<string>)
    ensures |names| == |cols| && forall k | 0 <= k < |cols| :: names[k] == LinkName(cols[k])
  {
    seq(|cols|, k requires 0 <= k < |cols| => LinkName(cols[k]))
  }

  /** The dictionary has an entry for exactly the names the columns reduce to. */
  lemma {:induction false} PerLinkKeys<V>(t: LinkTable, cols: seq<string>, f: seq<real> -> V)
    requires forall c | c in cols :: InEveryRow(t, c)
    ensures PerLink(t, cols, f).Keys == set name | name in LinkNames(cols)
  {
    if |cols| > 0 {
      var init := cols[..|cols| - 1];
      PerLinkKeys(t, init, f);
      assert LinkNames(cols) == LinkNames(init) + [LinkName(cols[|cols| - 1])];
    }
  }

  /** A column's value is the one kept under its link name unless a later
      column reduces to the same name. */
  lemma {:induction false} PerLinkValue<V>(t: LinkTable, cols: seq<string>, f: seq<real> -> V, k: int)
    requires forall c | c in cols :: InEveryRow(t, c)
    requires 0 <= k < |cols|
    requires forall j | k < j < |cols| :: LinkName(cols[j]) != LinkName(cols[k])
    ensures LinkName(cols[k]) in PerLink(t, cols, f)
    ensures PerLink(t, cols, f)[LinkName(cols[k])] == f(Column(t, cols[k]))
  {
    if k < |cols| - 1 {
      var init := cols[..|cols| - 1];
      assert init[k] == cols[k];
      PerLinkValue(t, init, f, k);
    }
  }

  /** Of a link label free of `_bits`, the column name reduces back to the label. */
  lemma LinkNameOfColumn(link: string)
    requires !Contains(link, BitsSuffix)
    ensures LinkName(ColumnName(link)) == link
  {
    assert BitsSuffix[0] !in BitsSuffix[1..];
    ReplaceAllOnlySuffix(link, BitsSuffix);
  }

  /** The aggregation's output holds a value in every link column of every row. */
  lemma AggregateHasLinkValues(slotDf: Frame<SlotRow>, topology: map<CellId, string>, t: LinkTable)
    requires AggregateSlotTrafficByLink(slotDf, topology) == Success(t)
    ensures HasLinkValues(t)
  {
    AggregateValues(slotDf, topology);
    AggregateLinkColumns(slotDf, topology, t);
    forall c | c in t.columns && EndsWith(c, BitsSuffix) ensures InEveryRow(t, c) {
      assert c in GetLinkColumns(t);
    }
  }

  /** The distinct `<link>_bits` columns of `_bits`-free labels reduce to
      their labels, one column per label. */
  lemma {:induction false} LinkColumnNames(cols: seq<string>, links: seq<string>)
    requires forall c :: c in cols <==> |c| >= |BitsSuffix| && EndsWith(c, BitsSuffix) && LinkOfColumn(c) in links
    requires forall l | l in links :: !Contains(l, BitsSuffix)
    ensures forall k | 0 <= k < |cols| :: LinkName(cols[k]) == LinkOfColumn(cols[k]) && cols[k] == ColumnName(LinkName(cols[k]))
    ensures forall k | 0 <= k < |cols| :: LinkName(cols[k]) in links
    ensures forall l | l in links :: ColumnName(l) in cols
  {
    forall k | 0 <= k < |cols|
      ensures LinkName(cols[k]) == LinkOfColumn(cols[k]) && cols[k] == ColumnName(LinkName(cols[k]))
    {
      assert cols[k] in cols;
      assert cols[k] == ColumnName(LinkOfColumn(cols[k]));
      LinkNameOfColumn(LinkOfColumn(cols[k]));
    }
    forall l | l in links ensures ColumnName(l) in cols {
      ColumnNameInverse(l);
    }
  }

  /** The dictionary's keys, when the columns reduce to the labels. */
  lemma PerLinkKeysOfLinks<V>(t: LinkTable, cols: seq<string>, links: seq<string>, f: seq<real> -> V)
    requires forall c | c in cols :: InEveryRow(t, c)
    requires forall k | 0 <= k < |cols| :: LinkName(cols[k]) in links
    requires forall l | l in links :: ColumnName(l) in cols
    requires forall k | 0 <= k < |cols| :: cols[k] == ColumnName(LinkName(cols[k]))
    ensures PerLink(t, cols, f).Keys == set l | l in links
  {
    PerLinkKeys(t, cols, f);
    forall l | l in links ensures l in LinkNames(cols) {
      var k :| 0 <= k < |cols| && cols[k] == ColumnName(l);
      ColumnNameInjective(l, LinkName(cols[k]));
    }
  }

  /** The dictionary's values, when the columns are distinct and reduce to the labels. */
  lemma PerLinkValuesOfLinks<V>(t: LinkTable, cols: seq<string>, links: seq<string>, f: seq<real> -> V)
    requires forall c | c in cols :: InEveryRow(t, c)
    requires Distinct(cols)
    requires forall l | l in links :: ColumnName(l) in cols
    requires forall k | 0 <= k < |cols| :: cols[k] == ColumnName(LinkName(cols[k]))
    ensures forall l | l in links ::
      && InEveryRow(t, ColumnName(l))
      && l in PerLink(t, cols, f)
      && PerLink(t, cols, f)[l] == f(Column(t, ColumnName(l)))
  {
    forall l | l in links
      ensures InEveryRow(t, ColumnName(l)) && l in PerLink(t, cols, f)
        && PerLink(t, cols, f)[l] == f(Column(t, ColumnName(l)))
    {
      var k :| 0 <= k < |cols| && cols[k] == ColumnName(l);
      ColumnNameInjective(l, LinkName(cols[k]));
      forall j | k < j < |cols| ensures LinkName(cols[j]) != LinkName(cols[k]) {
        assert cols[k] != cols[j];
      }
      PerLinkValue(t, cols, f, k);
    }
  }

  /** Summarising the aggregation's output, when no link label contains
      `_bits` (as with the labels topology inference produces): one entry
      per link, holding the statistics of the link's column. */
  lemma AggregateSummary(slotDf: Frame<SlotRow>, topology: map<CellId, string>, t: LinkTable)
    requires AggregateSlotTrafficByLink(slotDf, topology) == Success(t)
    requires forall l | l in LinksOfRows(slotDf.rows, topology) :: !Contains(l, BitsSuffix)
    ensures HasLinkValues(t)
    ensures SummaryOf(t).totalSlots == |t.rows|
    ensures SummaryOf(t).links.Keys == set l | l in LinksOfRows(slotDf.rows, topology)
    ensures forall l | l in LinksOfRows(slotDf.rows, topology) ::
      && InEveryRow(t, ColumnName(l))
      && SummaryOf(t).links[l] == StatsOf(Column(t, ColumnName(l)))
  {
    AggregateHasLinkValues(slotDf, topology, t);
    AggregateLinkColumns(slotDf, topology, t);
    AggregateColumns(slotDf, topology);
    var cols := t.columns[1..];
    assert Distinct(cols) by {
      forall i, j | 0 <= i < j < |cols| ensures cols[i] != cols[j] {
        assert LexLt(cols[i], cols[j]);
      }
    }
    var links := LinksOfRows(slotDf.rows, topology);
    LinkColumnNames(cols, links);
    PerLinkKeysOfLinks(t, cols, links, StatsOf);
    PerLinkValuesOfLinks(t, cols, links, StatsOf);
  }
}
