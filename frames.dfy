/** The tabular data the services pass to each other. A pandas DataFrame is
    modelled as the set of its column names and its rows in order; each row is
    a record holding every field the pipeline reads, and `columns` says which
    of them the frame really has (a service that needs an absent column raises
    `KeyError`). */
module Frames {
  import opened Wrappers
  import opened Strings
  import opened Sorting

  type CellId = string

  datatype Frame<R> = Frame(columns: set<string>, rows: seq<R>)

  /** `[col for col in required if col not in columns]`. */
  function MissingColumns(required: seq<string>, columns: set<string>): (m: seq<string>)
    ensures forall c :: c in m <==> c in required && c !in columns
    ensures m == [] <==> forall i :: 0 <= i < |required| ==> required[i] in columns
  {
    if |required| == 0 then []
    else
      var rest := MissingColumns(required[..|required| - 1], columns);
      var c := required[|required| - 1];
      if c in columns then rest else rest + [c]
  }

  /** One row of the per-slot traffic frame the detection path works on:
      `timestamp`, `cell_id`, `throughput`, `packet_loss`, and `is_congested`
      once congestion detection has added it. */
  datatype TrafficRow = TrafficRow(
    timestamp: real,
    cellId: CellId,
    throughput: real,
    packetLoss: int,
    isCongested: bool)

  /** One row of the symbol-level throughput frame: `cell_id`, `symbol_index`, `throughput_bits`. */
  datatype SymbolRow = SymbolRow(cellId: CellId, symbolIndex: int, throughputBits: real)

  /** One row of the slot-level frame: `slot_id`, `cell_id`, `slot_throughput_bits`. */
  datatype SlotRow = SlotRow(slotId: int, cellId: CellId, slotThroughputBits: real)

  /** Order of `sort_values(["cell_id", k])` for a string key and an integer key. */
  predicate CellKeyLe(c1: CellId, k1: int, c2: CellId, k2: int)
  {
    LexLt(c1, c2) || (c1 == c2 && k1 <= k2)
  }

  lemma CellKeyLeTotal(c1: CellId, k1: int, c2: CellId, k2: int)
    ensures CellKeyLe(c1, k1, c2, k2) || CellKeyLe(c2, k2, c1, k1)
  {
    LexLeTotal(c1, c2);
  }

  lemma CellKeyLeTransitive(c1: CellId, k1: int, c2: CellId, k2: int, c3: CellId, k3: int)
    requires CellKeyLe(c1, k1, c2, k2) && CellKeyLe(c2, k2, c3, k3)
    ensures CellKeyLe(c1, k1, c3, k3)
  {
    if LexLt(c1, c2) && LexLt(c2, c3) {
      LexLeTransitive(c1, c2, c3);
      if c1 == c3 { LexLeAntisymmetric(c1, c2); }
    }
  }

  /** Python's string order sorts every list of strings. */
  lemma LexLeIsTotalPreorder()
    ensures TotalPreorder(LexLe)
  {
    forall a: string, b: string ensures LexLe(a, b) || LexLe(b, a) {
      LexLeTotal(a, b);
    }
    forall a: string, b: string, c: string | LexLe(a, b) && LexLe(b, c) ensures LexLe(a, c) {
      LexLeTransitive(a, b, c);
    }
  }

  /** `sort_values(["cell_id", "symbol_index"])`. */
  predicate SymbolOrder(a: SymbolRow, b: SymbolRow)
  {
    CellKeyLe(a.cellId, a.symbolIndex, b.cellId, b.symbolIndex)
  }

  lemma SymbolOrderIsTotalPreorder()
    ensures TotalPreorder(SymbolOrder)
  {
    forall a: SymbolRow, b: SymbolRow ensures SymbolOrder(a, b) || SymbolOrder(b, a) {
      CellKeyLeTotal(a.cellId, a.symbolIndex, b.cellId, b.symbolIndex);
    }
    forall a: SymbolRow, b: SymbolRow, c: SymbolRow | SymbolOrder(a, b) && SymbolOrder(b, c)
      ensures SymbolOrder(a, c)
    {
      CellKeyLeTransitive(a.cellId, a.symbolIndex, b.cellId, b.symbolIndex, c.cellId, c.symbolIndex);
    }
  }
}
