/** Symbol-to-slot aggregation: every 14 consecutive symbols of a cell form
    one slot, and a slot's traffic is the sum of its symbols' bits. The output
    has one row per (cell, slot) group that holds at least one symbol, sorted
    by cell id and then slot id. */
module SlotConversion {
  import opened Wrappers
  import opened Seqs
  import opened Strings
  import opened Sorting
  import opened Frames

  /** `SYMBOLS_PER_SLOT`: 1 slot = 14 symbols. */
  const SymbolsPerSlot: int := 14

  const RequiredColumns: seq<string> := ["cell_id", "symbol_index", "throughput_bits"]

  /** `symbol_index // SYMBOLS_PER_SLOT`: the slot whose 14 symbols include this one
      (Dafny's `/` agrees with Python's `//` for a positive divisor, negative
      indices included). */
  function SlotOf(symbolIndex: int): (slot: int)
    ensures slot * SymbolsPerSlot <= symbolIndex < (slot + 1) * SymbolsPerSlot
  {
    symbolIndex / SymbolsPerSlot
  }

  /** A `(cell_id, slot_id)` group key. */
  datatype SlotKey = SlotKey(cellId: CellId, slotId: int)

  function KeyOf(r: SymbolRow): SlotKey
  {
    SlotKey(r.cellId, SlotOf(r.symbolIndex))
  }

  /** Order of `sort_values(["cell_id", "slot_id"])` and of groupby keys. */
  predicate KeyOrder(a: SlotKey, b: SlotKey)
  {
    CellKeyLe(a.cellId, a.slotId, b.cellId, b.slotId)
  }

  lemma KeyOrderIsTotalPreorder()
    ensures TotalPreorder(KeyOrder)
  {
    forall a: SlotKey, b: SlotKey ensures KeyOrder(a, b) || KeyOrder(b, a) {
      CellKeyLeTotal(a.cellId, a.slotId, b.cellId, b.slotId);
    }
    forall a: SlotKey, b: SlotKey, c: SlotKey | KeyOrder(a, b) && KeyOrder(b, c)
      ensures KeyOrder(a, c)
    {
      CellKeyLeTransitive(a.cellId, a.slotId, b.cellId, b.slotId, c.cellId, c.slotId);
    }
  }

  /** A symbol's bits if it belongs to the group, else nothing. */
  function Contribution(key: SlotKey): SymbolRow -> real
  {
    (r: SymbolRow) => if KeyOf(r) == key then r.throughputBits else 0.0
  }

  /** `throughput_bits` summed over the symbols of one group. */
  function GroupBits(rows: seq<SymbolRow>, key: SlotKey): real
  {
    SumOf(rows, Contribution(key))
  }

  /** The key of every symbol, in order. */
  function KeysOf(rows: seq<SymbolRow>): (all: seq<SlotKey>)
    ensures |all| == |rows| && forall i :: 0 <= i < |rows| ==> all[i] == KeyOf(rows[i])
  {
    seq(|rows|, i requires 0 <= i < |rows| => KeyOf(rows[i]))
  }

  lemma KeysOfMembers(rows: seq<SymbolRow>)
    ensures forall k :: k in KeysOf(rows) <==> exists i :: 0 <= i < |rows| && KeyOf(rows[i]) == k
  {
    var all := KeysOf(rows);
    forall k ensures k in all <==> exists i :: 0 <= i < |rows| && KeyOf(rows[i]) == k {
      if k in all {
        var i :| 0 <= i < |all| && all[i] == k;
        assert KeyOf(rows[i]) == k;
      }
      if exists i :: 0 <= i < |rows| && KeyOf(rows[i]) == k {
        var i :| 0 <= i < |rows| && KeyOf(rows[i]) == k;
        assert all[i] == k;
      }
    }
  }

  /** The keys `groupby(["cell_id", "slot_id"])` produces: every key some
      symbol has, once each, in sorted order. */
  function GroupKeys(rows: seq<SymbolRow>): (keys: seq<SlotKey>)
    ensures SortedBy(keys, KeyOrder) && Distinct(keys)
    ensures forall k :: k in keys <==> exists i :: 0 <= i < |rows| && KeyOf(rows[i]) == k
  {
    var all := KeysOf(rows);
    KeysOfMembers(rows);
    var u := Unique(all);
    KeyOrderIsTotalPreorder();
    var keys := Sort(u, KeyOrder);
    DistinctPermutation(u, keys);
    PermutationMembers(u, keys);
    keys
  }

  /** `sort_values(["cell_id", "symbol_index"])`. */
  function SortedSymbols(rows: seq<SymbolRow>): (data: seq<SymbolRow>)
    ensures SortedBy(data, SymbolOrder) && multiset(data) == multiset(rows)
  {
    SymbolOrderIsTotalPreorder();
    Sort(rows, SymbolOrder)
  }

  /** `convert_symbols_to_slots`: a missing required column raises `KeyError`;
      otherwise the sorted copy is grouped by `(cell_id, symbol_index // 14)`,
      each group's bits summed, and the rows ordered by `(cell_id, slot_id)`. */
  function ConvertSymbolsToSlots(df: Frame<SymbolRow>): (r: Result<Frame<SlotRow>>)
    ensures MissingColumns(RequiredColumns, df.columns) != [] <==> r.Failure?
    ensures r.Failure? ==> r.error == KeyError(MissingColumns(RequiredColumns, df.columns))
    ensures r.Success? ==> r.value.columns == {"slot_id", "cell_id", "slot_throughput_bits"}
  {
    var missing := MissingColumns(RequiredColumns, df.columns);
    if missing != [] then Failure(KeyError(missing))
    else
      var data := SortedSymbols(df.rows);
      var keys := GroupKeys(data);
      Success(Frame({"slot_id", "cell_id", "slot_throughput_bits"},
                    seq(|keys|, i requires 0 <= i < |keys| =>
                      SlotRow(keys[i].slotId, keys[i].cellId, GroupBits(data, keys[i])))))
  }

  function SlotKeyOf(r: SlotRow): SlotKey
  {
    SlotKey(r.cellId, r.slotId)
  }

  /** The sum of one group does not depend on the order of the symbols. */
  lemma GroupBitsPermutation(a: seq<SymbolRow>, b: seq<SymbolRow>, key: SlotKey)
    requires multiset(a) == multiset(b)
    ensures GroupBits(a, key) == GroupBits(b, key)
  {
    SumOfPermutation(a, b, Contribution(key));
  }

  /** Each output row holds the sum of the bits of the input symbols of its
      cell and slot. */
  lemma SlotBitsAreGroupSums(df: Frame<SymbolRow>)
    requires ConvertSymbolsToSlots(df).Success?
    ensures var out := ConvertSymbolsToSlots(df).value.rows;
      forall i | 0 <= i < |out| :: out[i].slotThroughputBits == GroupBits(df.rows, SlotKeyOf(out[i]))
  {
    var data := SortedSymbols(df.rows);
    var keys := GroupKeys(data);
    var out := ConvertSymbolsToSlots(df).value.rows;
    forall i | 0 <= i < |out| ensures out[i].slotThroughputBits == GroupBits(df.rows, SlotKeyOf(out[i])) {
      assert SlotKeyOf(out[i]) == keys[i];
      GroupBitsPermutation(data, df.rows, keys[i]);
    }
  }

  /** There is an output row for a cell and slot exactly when some input
      symbol of that cell falls in that slot: no empty slot is created. */
  lemma SlotRowsAreNonEmptyGroups(df: Frame<SymbolRow>, key: SlotKey)
    requires ConvertSymbolsToSlots(df).Success?
    ensures var out := ConvertSymbolsToSlots(df).value.rows;
      (exists i :: 0 <= i < |out| && SlotKeyOf(out[i]) == key)
        <==> (exists j :: 0 <= j < |df.rows| && KeyOf(df.rows[j]) == key)
  {
    var data := SortedSymbols(df.rows);
    OutputKeys(df);
    NonEmptyGroups(ConvertSymbolsToSlots(df).value.rows, GroupKeys(data), data, df.rows, key);
  }

  /** The output rows carry the group keys, in order. */
  lemma OutputKeys(df: Frame<SymbolRow>)
    requires ConvertSymbolsToSlots(df).Success?
    ensures var out, keys := ConvertSymbolsToSlots(df).value.rows, GroupKeys(SortedSymbols(df.rows));
      |out| == |keys| && forall i | 0 <= i < |out| :: SlotKeyOf(out[i]) == keys[i]
  {
  }

  lemma NonEmptyGroups(out: seq<SlotRow>, keys: seq<SlotKey>, data: seq<SymbolRow>, rows: seq<SymbolRow>, key: SlotKey)
    requires |out| == |keys| && forall i | 0 <= i < |out| :: SlotKeyOf(out[i]) == keys[i]
    requires forall k :: k in keys <==> exists i :: 0 <= i < |data| && KeyOf(data[i]) == k
    requires multiset(data) == multiset(rows)
    ensures (exists i :: 0 <= i < |out| && SlotKeyOf(out[i]) == key)
        <==> (exists j :: 0 <= j < |rows| && KeyOf(rows[j]) == key)
  {
    PermutationMembers(data, rows);
    if exists i :: 0 <= i < |out| && SlotKeyOf(out[i]) == key {
      var i :| 0 <= i < |out| && SlotKeyOf(out[i]) == key;
      assert keys[i] in keys;
      var j :| 0 <= j < |data| && KeyOf(data[j]) == key;
      assert data[j] in rows;
    }
    if exists j :: 0 <= j < |rows| && KeyOf(rows[j]) == key {
      var j :| 0 <= j < |rows| && KeyOf(rows[j]) == key;
      assert rows[j] in data;
      var j' :| 0 <= j' < |data| && data[j'] == rows[j];
      assert key in keys;
      var i :| 0 <= i < |keys| && keys[i] == key;
      assert SlotKeyOf(out[i]) == key;
    }
  }

  /** The output is strictly ordered by `(cell_id, slot_id)`, so no group appears twice. */
  lemma SlotRowsSorted(df: Frame<SymbolRow>)
    requires ConvertSymbolsToSlots(df).Success?
    ensures var out := ConvertSymbolsToSlots(df).value.rows;
      forall i, j | 0 <= i < j < |out| ::
        LexLt(out[i].cellId, out[j].cellId) || (out[i].cellId == out[j].cellId && out[i].slotId < out[j].slotId)
  {
    var data := SortedSymbols(df.rows);
    var keys := GroupKeys(data);
    var out := ConvertSymbolsToSlots(df).value.rows;
    forall i, j | 0 <= i < j < |out|
      ensures LexLt(out[i].cellId, out[j].cellId) || (out[i].cellId == out[j].cellId && out[i].slotId < out[j].slotId)
    {
      assert SlotKeyOf(out[i]) == keys[i] && SlotKeyOf(out[j]) == keys[j];
      assert KeyOrder(keys[i], keys[j]) && keys[i] != keys[j];
    }
  }

  /** The bits of one cell, symbol by symbol. */
  function CellSymbolBits(c: CellId): SymbolRow -> real
  {
    (r: SymbolRow) => if r.cellId == c then r.throughputBits else 0.0
  }

  /** The bits of one cell, slot by slot. */
  function CellSlotBits(c: CellId): SlotRow -> real
  {
    (r: SlotRow) => if r.cellId == c then r.slotThroughputBits else 0.0
  }

  /** Summing the groups of one cell, over a duplicate-free key list that
      holds every key of the symbols, gives the cell's total bits. */
  function CellGroupsTotal(keys: seq<SlotKey>, rows: seq<SymbolRow>, c: CellId): real
  {
    if |keys| == 0 then 0.0
    else
      var k := keys[|keys| - 1];
      CellGroupsTotal(keys[..|keys| - 1], rows, c) + (if k.cellId == c then GroupBits(rows, k) else 0.0)
  }

  /** Adding one symbol adds its bits to the total of the cell's groups, if
      its key is among them. */
  lemma {:induction false} CellGroupsTotalSnoc(keys: seq<SlotKey>, rows: seq<SymbolRow>, r: SymbolRow, c: CellId)
    requires Distinct(keys)
    ensures CellGroupsTotal(keys, rows + [r], c)
      == CellGroupsTotal(keys, rows, c) + (if KeyOf(r) in keys && r.cellId == c then r.throughputBits else 0.0)
    decreases |keys|
  {
    if |keys| > 0 {
      var k := keys[|keys| - 1];
      var init := keys[..|keys| - 1];
      assert (rows + [r])[..|rows|] == rows;
      assert GroupBits(rows + [r], k) == GroupBits(rows, k) + Contribution(k)(r);
      assert Distinct(init);
      CellGroupsTotalSnoc(init, rows, r, c);
      assert keys == init + [k];
      assert KeyOf(r) in keys <==> KeyOf(r) in init || KeyOf(r) == k;
      assert KeyOf(r) == k ==> KeyOf(r) !in init;
    }
  }

  /** Over a duplicate-free key list holding every symbol's key, the cell's
      groups add up to the cell's bits. */
  lemma {:induction false} CellGroupsConserve(keys: seq<SlotKey>, rows: seq<SymbolRow>, c: CellId)
    requires Distinct(keys)
    requires forall i :: 0 <= i < |rows| ==> KeyOf(rows[i]) in keys
    ensures CellGroupsTotal(keys, rows, c) == SumOf(rows, CellSymbolBits(c))
    decreases |rows|
  {
    if |rows| == 0 {
      CellGroupsEmpty(keys, c);
    } else {
      var init := rows[..|rows| - 1];
      var r := rows[|rows| - 1];
      assert rows == init + [r];
      CellGroupsConserve(keys, init, c);
      CellGroupsTotalSnoc(keys, init, r, c);
    }
  }

  lemma {:induction false} CellGroupsEmpty(keys: seq<SlotKey>, c: CellId)
    ensures CellGroupsTotal(keys, [], c) == 0.0
    decreases |keys|
  {
    if |keys| > 0 { CellGroupsEmpty(keys[..|keys| - 1], c); }
  }

  /** The output rows of a cell, summed, are the cell's groups summed. */
  lemma {:induction false} SlotRowsTotal(keys: seq<SlotKey>, data: seq<SymbolRow>, c: CellId)
    ensures SumOf(seq(|keys|, i requires 0 <= i < |keys| => SlotRow(keys[i].slotId, keys[i].cellId, GroupBits(data, keys[i]))),
                  CellSlotBits(c))
      == CellGroupsTotal(keys, data, c)
    decreases |keys|
  {
    var out := seq(|keys|, i requires 0 <= i < |keys| => SlotRow(keys[i].slotId, keys[i].cellId, GroupBits(data, keys[i])));
    if |keys| > 0 {
      var init := keys[..|keys| - 1];
      SlotRowsTotal(init, data, c);
      assert out[..|out| - 1]
        == seq(|init|, i requires 0 <= i < |init| => SlotRow(init[i].slotId, init[i].cellId, GroupBits(data, init[i])));
    }
  }

  /** Each cell's total traffic is the same before and after the conversion. */
  lemma CellTotalPreserved(df: Frame<SymbolRow>, c: CellId)
    requires ConvertSymbolsToSlots(df).Success?
    ensures SumOf(ConvertSymbolsToSlots(df).value.rows, CellSlotBits(c)) == SumOf(df.rows, CellSymbolBits(c))
  {
    var data := SortedSymbols(df.rows);
    var keys := GroupKeys(data);
    SlotRowsTotal(keys, data, c);
    CellGroupsConserve(keys, data, c);
    SumOfPermutation(data, df.rows, CellSymbolBits(c));
  }

  /** `n` symbols of one cell, indexed `0 .. n - 1`, each carrying `bits`. */
  function UniformSymbols(c: CellId, bits: real, n: nat): (rows: seq<SymbolRow>)
    ensures |rows| == n && forall i :: 0 <= i < n ==> rows[i] == SymbolRow(c, i, bits)
  {
    seq(n, i requires 0 <= i < n => SymbolRow(c, i, bits))
  }

  /** How many of the indices `0 .. n - 1` fall in slot `s`. */
  function InSlot(n: int, s: int): int
  {
    if n - SymbolsPerSlot * s < 0 then 0
    else if n - SymbolsPerSlot * s > SymbolsPerSlot then SymbolsPerSlot
    else n - SymbolsPerSlot * s
  }

  /** A slot of uniform symbols carries `bits` once per symbol it holds. */
  lemma {:induction false} UniformGroupBits(c: CellId, bits: real, n: nat, s: nat)
    ensures GroupBits(UniformSymbols(c, bits, n), SlotKey(c, s)) == bits * InSlot(n, s) as real
  {
    if n > 0 {
      var rows := UniformSymbols(c, bits, n);
      assert rows[..n - 1] == UniformSymbols(c, bits, n - 1);
      UniformGroupBits(c, bits, n - 1, s);
      var key := SlotKey(c, s);
      assert GroupBits(rows, key) == GroupBits(rows[..n - 1], key) + Contribution(key)(rows[n - 1]);
      assert KeyOf(rows[n - 1]) == SlotKey(c, SlotOf(n - 1));
      if SlotOf(n - 1) == s {
        assert InSlot(n, s) == InSlot(n - 1, s) + 1;
      } else if SlotOf(n - 1) < s {
        assert InSlot(n, s) == InSlot(n - 1, s) == 0;
      } else {
        assert InSlot(n, s) == InSlot(n - 1, s) == SymbolsPerSlot;
      }
    }
  }

  /** The docstring's example: 28 symbols of 1000 bits make two slots of 14000 bits. */
  lemma DocstringExample()
    ensures var df := Frame({"cell_id", "symbol_index", "throughput_bits"}, UniformSymbols("cell_1", 1000.0, 28));
      ConvertSymbolsToSlots(df) ==
        Success(Frame({"slot_id", "cell_id", "slot_throughput_bits"},
                      [SlotRow(0, "cell_1", 14000.0), SlotRow(1, "cell_1", 14000.0)]))
  {
    TwoUniformSlots("cell_1", 1000.0);
  }

  /** Twenty-eight uniform symbols of one cell fill exactly two slots. */
  lemma TwoUniformSlots(c: CellId, bits: real)
    ensures var df := Frame({"cell_id", "symbol_index", "throughput_bits"}, UniformSymbols(c, bits, 28));
      ConvertSymbolsToSlots(df) ==
        Success(Frame({"slot_id", "cell_id", "slot_throughput_bits"},
                      [SlotRow(0, c, 14.0 * bits), SlotRow(1, c, 14.0 * bits)]))
  {
    var rows := UniformSymbols(c, bits, 28);
    var df := Frame({"cell_id", "symbol_index", "throughput_bits"}, rows);
    assert MissingColumns(RequiredColumns, df.columns) == [];
    UniformSlotKeys(df, c, bits);
    var out := ConvertSymbolsToSlots(df).value.rows;
    SlotBitsAreGroupSums(df);
    UniformGroupBits(c, bits, 28, 0);
    UniformGroupBits(c, bits, 28, 1);
    assert out[0] == SlotRow(0, c, 14.0 * bits) && out[1] == SlotRow(1, c, 14.0 * bits);
    assert out == [SlotRow(0, c, 14.0 * bits), SlotRow(1, c, 14.0 * bits)];
  }

  lemma UniformSlotKeys(df: Frame<SymbolRow>, c: CellId, bits: real)
    requires df.rows == UniformSymbols(c, bits, 28) && ConvertSymbolsToSlots(df).Success?
    ensures var out := ConvertSymbolsToSlots(df).value.rows;
      |out| == 2 && SlotKeyOf(out[0]) == SlotKey(c, 0) && SlotKeyOf(out[1]) == SlotKey(c, 1)
  {
    var rows := df.rows;
    var k0, k1 := SlotKey(c, 0), SlotKey(c, 1);
    assert KeyOf(rows[0]) == k0 && KeyOf(rows[14]) == k1;
    forall j | 0 <= j < |rows| ensures KeyOf(rows[j]) == k0 || KeyOf(rows[j]) == k1 {
      assert rows[j].symbolIndex == j;
    }
    LexLeReflexive(c);
    TwoSlotKeys(df, k0, k1, 0, 14);
  }

  /** Symbols that all fall in two slots of one cell, both occupied, make
      exactly those two output rows, in slot order. */
  lemma TwoSlotKeys(df: Frame<SymbolRow>, k0: SlotKey, k1: SlotKey, a: int, b: int)
    requires ConvertSymbolsToSlots(df).Success?
    requires k0.cellId == k1.cellId && k0.slotId < k1.slotId && LexLe(k0.cellId, k0.cellId)
    requires forall j | 0 <= j < |df.rows| :: KeyOf(df.rows[j]) == k0 || KeyOf(df.rows[j]) == k1
    requires 0 <= a < |df.rows| && KeyOf(df.rows[a]) == k0
    requires 0 <= b < |df.rows| && KeyOf(df.rows[b]) == k1
    ensures var out := ConvertSymbolsToSlots(df).value.rows;
      |out| == 2 && SlotKeyOf(out[0]) == k0 && SlotKeyOf(out[1]) == k1
  {
    var out := ConvertSymbolsToSlots(df).value.rows;
    SlotRowsSorted(df);
    OutputKeysAmong(df, k0, k1);
    SlotRowsAreNonEmptyGroups(df, k0);
    SlotRowsAreNonEmptyGroups(df, k1);
    var i0 :| 0 <= i0 < |out| && SlotKeyOf(out[i0]) == k0;
    var i1 :| 0 <= i1 < |out| && SlotKeyOf(out[i1]) == k1;
    TwoKeys(out, k0, k1, i0, i1);
  }

  /** When every symbol has one of two keys, so does every output row. */
  lemma OutputKeysAmong(df: Frame<SymbolRow>, k0: SlotKey, k1: SlotKey)
    requires ConvertSymbolsToSlots(df).Success?
    requires forall j | 0 <= j < |df.rows| :: KeyOf(df.rows[j]) == k0 || KeyOf(df.rows[j]) == k1
    ensures var out := ConvertSymbolsToSlots(df).value.rows;
      forall i | 0 <= i < |out| :: SlotKeyOf(out[i]) == k0 || SlotKeyOf(out[i]) == k1
  {
    var out := ConvertSymbolsToSlots(df).value.rows;
    forall i | 0 <= i < |out| ensures SlotKeyOf(out[i]) == k0 || SlotKeyOf(out[i]) == k1 {
      SlotRowsAreNonEmptyGroups(df, SlotKeyOf(out[i]));
    }
  }

  /** In a strictly ordered list, two rows with the same key are the same row. */
  lemma KeyPosition(out: seq<SlotRow>, i: int, j: int)
    requires forall i, j | 0 <= i < j < |out| ::
      LexLt(out[i].cellId, out[j].cellId) || (out[i].cellId == out[j].cellId && out[i].slotId < out[j].slotId)
    requires 0 <= i < |out| && 0 <= j < |out| && SlotKeyOf(out[i]) == SlotKeyOf(out[j])
    ensures i == j
  {
  }

  lemma OneOfTwo(out: seq<SlotRow>, k0: SlotKey, k1: SlotKey, a: int, b: int, i: int)
    requires forall i, j | 0 <= i < j < |out| ::
      LexLt(out[i].cellId, out[j].cellId) || (out[i].cellId == out[j].cellId && out[i].slotId < out[j].slotId)
    requires forall i | 0 <= i < |out| :: SlotKeyOf(out[i]) == k0 || SlotKeyOf(out[i]) == k1
    requires 0 <= a < |out| && SlotKeyOf(out[a]) == k0
    requires 0 <= b < |out| && SlotKeyOf(out[b]) == k1
    requires 0 <= i < |out|
    ensures i == a || i == b
  {
    if SlotKeyOf(out[i]) == k0 { KeyPosition(out, i, a); } else { KeyPosition(out, i, b); }
  }

  /** A strictly ordered list whose keys are all among two keys, both present, is those two keys. */
  lemma TwoKeys(out: seq<SlotRow>, k0: SlotKey, k1: SlotKey, a: int, b: int)
    requires forall i, j | 0 <= i < j < |out| ::
      LexLt(out[i].cellId, out[j].cellId) || (out[i].cellId == out[j].cellId && out[i].slotId < out[j].slotId)
    requires forall i | 0 <= i < |out| :: SlotKeyOf(out[i]) == k0 || SlotKeyOf(out[i]) == k1
    requires k0.cellId == k1.cellId && k0.slotId < k1.slotId && LexLe(k0.cellId, k0.cellId)
    requires 0 <= a < |out| && SlotKeyOf(out[a]) == k0
    requires 0 <= b < |out| && SlotKeyOf(out[b]) == k1
    ensures |out| == 2 && SlotKeyOf(out[0]) == k0 && SlotKeyOf(out[1]) == k1
  {
    assert a != b;
    OneOfTwo(out, k0, k1, a, b, 0);
    OneOfTwo(out, k0, k1, a, b, 1);
    OneOfTwo(out, k0, k1, a, b, |out| - 1);
  }

  /** The summary `get_slot_count` returns. */
  datatype SlotCount = SlotCount(totalUniqueSlots: nat, slotsPerCell: map<CellId, nat>, symbolsPerSlot: int)

  /** The distinct slot ids of the rows of one cell (`Some(c)`) or of all rows (`None`). */
  function SlotIds(rows: seq<SlotRow>, c: Option<CellId>): (ids: set<int>)
    ensures |ids| <= |rows|
  {
    if |rows| == 0 then {}
    else
      var init := SlotIds(rows[..|rows| - 1], c);
      var r := rows[|rows| - 1];
      if c.None? || r.cellId == c.value then init + {r.slotId} else init
  }

  /** A slot id is collected exactly when some row of the selected cells carries it. */
  lemma {:induction false} SlotIdsMembers(rows: seq<SlotRow>, c: Option<CellId>)
    ensures forall s :: s in SlotIds(rows, c) <==>
      exists i :: 0 <= i < |rows| && rows[i].slotId == s && (c.None? || rows[i].cellId == c.value)
  {
    if |rows| > 0 {
      SlotIdsMembers(rows[..|rows| - 1], c);
      assert forall i :: 0 <= i < |rows| - 1 ==> rows[..|rows| - 1][i] == rows[i];
    }
  }

  lemma SlotIdsAsSet(rows: seq<SlotRow>, c: Option<CellId>)
    ensures SlotIds(rows, c) == set i | 0 <= i < |rows| && (c.None? || rows[i].cellId == c.value) :: rows[i].slotId
  {
    SlotIdsMembers(rows, c);
  }

  function CellsOf(rows: seq<SlotRow>): set<CellId>
  {
    set i | 0 <= i < |rows| :: rows[i].cellId
  }

  /** The facts behind `get_slot_count`'s contract: the distinct slot ids of all
      rows, and of each cell's rows, as sets drawn from the rows. */
  lemma SlotCountFacts(rows: seq<SlotRow>)
    ensures |SlotIds(rows, None)| == 0 <==> |rows| == 0
    ensures SlotIds(rows, None) == set i | 0 <= i < |rows| :: rows[i].slotId
    ensures forall c | c in CellsOf(rows) ::
      && 1 <= |SlotIds(rows, Some(c))| <= |SlotIds(rows, None)|
      && SlotIds(rows, Some(c)) == set i | 0 <= i < |rows| && rows[i].cellId == c :: rows[i].slotId
  {
    var total := SlotIds(rows, None);
    SlotIdsAsSet(rows, None);
    assert |rows| > 0 ==> rows[0].slotId in total;
    forall c | c in CellsOf(rows)
      ensures 1 <= |SlotIds(rows, Some(c))| <= |total|
      ensures SlotIds(rows, Some(c)) == set i | 0 <= i < |rows| && rows[i].cellId == c :: rows[i].slotId
    {
      SlotIdsAsSet(rows, Some(c));
      var i :| 0 <= i < |rows| && rows[i].cellId == c;
      assert rows[i].slotId in SlotIds(rows, Some(c));
      SubsetCardinality(SlotIds(rows, Some(c)), total);
    }
  }

  /** `get_slot_count`: the number of distinct slot ids, the number of distinct
      slot ids of each cell, and the slot size. */
  function GetSlotCount(df: Frame<SlotRow>): (r: Result<SlotCount>)
    ensures "slot_id" !in df.columns <==> r == Failure(KeyError(["slot_id"]))
    ensures "slot_id" in df.columns && "cell_id" !in df.columns <==> r == Failure(KeyError(["cell_id"]))
    ensures r.Success? <==> "slot_id" in df.columns && "cell_id" in df.columns
    ensures r.Success? ==>
      && r.value.symbolsPerSlot == SymbolsPerSlot
      && r.value.totalUniqueSlots <= |df.rows|
      && (r.value.totalUniqueSlots == 0 <==> |df.rows| == 0)
      && (forall c :: c in r.value.slotsPerCell <==> exists i :: 0 <= i < |df.rows| && df.rows[i].cellId == c)
      && (forall c | c in r.value.slotsPerCell :: 1 <= r.value.slotsPerCell[c] <= r.value.totalUniqueSlots)
      && r.value.totalUniqueSlots == |set i | 0 <= i < |df.rows| :: df.rows[i].slotId|
      && (forall c | c in r.value.slotsPerCell ::
            r.value.slotsPerCell[c] == |set i | 0 <= i < |df.rows| && df.rows[i].cellId == c :: df.rows[i].slotId|)
  {
    if "slot_id" !in df.columns then Failure(KeyError(["slot_id"]))
    else if "cell_id" !in df.columns then Failure(KeyError(["cell_id"]))
    else
      var total := SlotIds(df.rows, None);
      var perCell := map c | c in CellsOf(df.rows) :: |SlotIds(df.rows, Some(c))|;
      SlotCountFacts(df.rows);
      Success(SlotCount(|total|, perCell, SymbolsPerSlot))
  }
}
