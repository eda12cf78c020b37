# Fronthaul link analysis — a verified model

This project models the deterministic analysis pipeline of a fronthaul
network-analysis backend (`backend/services/`), which turns per-cell radio
measurements into inferred links and required link capacities, in Dafny:

- **Raw data parsing** (`raw_data_parser.dfy`). Per-row packet loss,
  clipped at 0. Throughput outliers above a bound become 0. Symbols are
  numbered from 0 in timestamp order and converted from kbit to bits. File
  names map to cell ids. Files are combined and sorted, and `load_raw_data`
  maps the columns.
- **Congestion flagging** (`congestion.dfy`). A row is congested exactly
  when its packet loss is positive.
- **Pairwise congestion correlation** (`correlation.dfy`). For two cells:
  the number of timestamps where both are congested, divided by the smaller
  of their congested-timestamp counts. The loops that fill the nested
  dictionary are methods.
- **Topology inference** (`topology.dfy`). The adjacency sets are built
  from correlations at or above the threshold. Connected components are
  found by a queue-based breadth-first search, sorted by size and then by
  smallest cell id, and labelled `Link_1 … Link_k`. All of these are
  methods over sets, sequences and maps.
- **Symbol to slot aggregation** (`slot_conversion.dfy`). The slot is
  `symbol_index div 14`, and the bits are summed per (cell, slot).
- **Slot to link aggregation** (`link_aggregation.dfy`). Traffic is summed
  per (slot, link), with unmapped cells on `Unknown_Link`. The table is
  pivoted with 0 for absent pairs, and the columns are named `<link>_bits`
  and sorted. Also modelled: the per-link summary loop and
  `get_link_columns`.
- **Capacity estimation** (`capacity_estimation.dfy`):
  - the peak (no-buffer) estimate;
  - the FIFO buffer simulation as a state machine;
  - the bounded bisection for the minimum capacity that meets a
    loss-ratio tolerance;
  - the with-buffer estimate per link;
  - the comparison of the two estimates.
- **Feature engineering** (`feature_engineering.dfy`,
  `feature_catalogue.dfy`):
  - the slots-since-last-congestion counter;
  - rolling congestion counts, frequencies, maxima and means, and the
    rolling slope;
  - lags and differences;
  - per-(timestamp, link) load and congestion ratio;
  - the forward/backward/zero fill of missing values;
  - the feature list and the feature descriptions.
- **Prediction helpers** (`congestion_predictor.dfy`):
  - risk categories and class weights;
  - the temporal train/test split;
  - normalising and ranking feature importances;
  - the top-N features and the best-model pick.

Shared foundations:

- `wrappers.dfy`: `Option`, and `Result` with `KeyError`/`ValueError`.
- `seqs.dfy`: sums, extrema, means, distinctness and counting.
- `strings.dfy`: Python's code-point string order, `str.replace`,
  `str.endswith`, decimal rendering.
- `sorting.dfy`: a sort proved to return a sorted permutation.
- `frames.dfy`: the row records each data frame holds, and the check for
  required columns.

How data frames are represented:

- A frame is a set of column names plus a sequence of row records, so a
  missing column can be detected and reported as the code does.
- Traffic, ratios and means are exact `real`s.
- A NaN the code can produce (a missing lag, an empty column's maximum) is
  `None`.

Where the system's design description and the code disagree, the model
follows the code:

- The no-buffer capacity is the plain column maximum, with no headroom
  factor.
- The congestion indicator is `packet_loss > 0`, not a threshold on
  throughput deviation.
- Correlation is overlap over the smaller count, not a Pearson
  coefficient.
- Topology inference has no pinning of cells to links and no conflict
  error.
- Links are numbered by descending component size, then by smallest cell
  id. They are not numbered by ascending minimum cell id alone.
- Slot conversion emits only non-empty (cell, slot) groups, in bits. Empty
  slots are not zero-filled, and nothing is converted to bits per second.
- The bisection silently stops after 100 rounds. It gives no
  non-convergence warning.
- Errors are the `KeyError`/`ValueError` the code raises. There is no
  malformed-input or integrity error taxonomy.

## Model

| member | source | states |
|---|---|---|
| RawDataParser.PacketLoss | backend/services/raw_data_parser.py:52-55 | the loss is `tx - rx + tooLate` when that is non-negative and 0 otherwise, so it is never negative |
| RawDataParser.ParsePktStatsFile | backend/services/raw_data_parser.py:23-57 | one row per record, with the record's counters, the file's cell id and the clipped loss; every loss is non-negative |
| RawDataParser.ReplaceOutliers | backend/services/raw_data_parser.py:142 | values strictly above the bound become 0 and the others are unchanged, so every result is at most the bound or 0 |
| RawDataParser.ParseThroughputFileIndexed | backend/services/raw_data_parser.py:103-154 | one row per record, all with the file's cell id and `symbol_index` 0..n-1, whose bits are 1000 times the outlier-replaced kbit value of a timestamp-sorted permutation of the records |
| RawDataParser.Basename | backend/services/raw_data_parser.py:175 | the base name has no `/` and is a suffix of the path |
| RawDataParser.BasenameOfJoin | backend/services/raw_data_parser.py:175 | the base name of `dir/name` is `name` |
| RawDataParser.CellIdOfDatFile | backend/services/raw_data_parser.py:175-178 | `pkt-stats-cell-<n>.dat` and `throughput-cell-<n>.dat` map to `cell_<n>` |
| RawDataParser.CellIdFromFilename | backend/services/raw_data_parser.py:177-178 | the cell id is `cell_` followed by the file name with the prefix and `.dat` removed; it always starts with `cell_` |
| RawDataParser.LoadAllPktStats | backend/services/raw_data_parser.py:157-184 | the loop's result is the concatenation, in listing order, of every file parsed under the cell id its name gives, and every loss in it is non-negative |
| RawDataParser.PktStatsLossNonNegative | backend/services/raw_data_parser.py:174-183 | every row of the combined pkt-stats frame has non-negative loss |
| RawDataParser.LoadAllThroughputIndexed | backend/services/raw_data_parser.py:217-254 | the combined symbol rows are a permutation of all files' parsed rows, sorted by `(cell_id, symbol_index)` |
| RawDataParser.LoadRawData | backend/services/raw_data_parser.py:280-285 | row for row, the timestamp, cell id and loss are carried over and `txPackets` becomes `throughput`; the columns are exactly the four the pipeline expects |
| Congestion.DetectCongestion | backend/services/congestion.py:58-69 | `KeyError(["packet_loss"])` exactly when the column is missing; otherwise a frame with `is_congested` added, the same rows in the same order, each unchanged except for `is_congested == packet_loss > 0` |
| Congestion.DetectCongestionIdempotent | backend/services/congestion.py:65-69 | flagging an already flagged frame changes nothing |
| Congestion.DocstringExample | backend/services/congestion.py:45-54 | losses 0 and 5 are flagged `False` and `True` |
| Correlation.CellIds | backend/services/correlation.py:70 | the cell ids are distinct and are exactly the cells that occur in the rows |
| Correlation.CongestedTimestamps | backend/services/correlation.py:74-78 | one entry per cell, holding exactly the timestamps of that cell's congested rows |
| Correlation.CorrelationRow | backend/services/correlation.py:84-110 | the inner dictionary of a cell has every other cell and not the cell itself, each with the overlap-over-minimum correlation, or 0 when either count is 0 |
| Correlation.CorrelationLoop | backend/services/correlation.py:81-111 | the outer dictionary has exactly the cells, each with its correlation row |
| Correlation.ComputeCongestionCorrelation | backend/services/correlation.py:60-112 | `KeyError` listing the missing columns exactly when some of `timestamp`, `cell_id`, `is_congested` are missing; otherwise the correlation matrix of the rows |
| Correlation.CorrBounds | backend/services/correlation.py:97-108 | every correlation lies in [0, 1] |
| Correlation.Corr | backend/services/correlation.py:97-106 | overlap over the smaller count, 0 when that count is 0; the correlation is 0 exactly when the two cells share no congested timestamp |
| Correlation.CorrSymmetric | backend/services/correlation.py:97-108 | the correlation of a with b equals that of b with a |
| Correlation.CorrOneIffContained | backend/services/correlation.py:10-16 | the correlation is 1 exactly when one congested-timestamp set is non-empty and contained in the other |
| Correlation.MatrixProperties | backend/services/correlation.py:83-110 | no self-pair; `M[a][b] == M[b][a]`; values in [0, 1]; 0 when either cell is never congested |
| Topology.AllCells | backend/services/topology.py:48-52 | the cells are the outer keys and every inner key, and nothing else |
| Topology.CollectCells | backend/services/topology.py:48-52 | the loop collects exactly the outer and inner keys |
| Topology.ListCells | backend/services/topology.py:54 | the list holds every cell of the set exactly once |
| Topology.AddEdgesOf | backend/services/topology.py:61-65 | scanning one row adds both directions of each edge at or above the threshold and keeps the keys |
| Topology.BuildAdjacency | backend/services/topology.py:58-65 | the adjacency has every cell as a key, and `y in adj[x]` exactly when the correlation is at or above the threshold in either direction |
| Topology.EnqueueNeighbors | backend/services/topology.py:89-91 | the queue is extended, never shortened, with every unvisited neighbour, each with a walk from the root |
| Topology.Bfs | backend/services/topology.py:77-91 | the component starts at the root, has no repeats, holds exactly the newly visited cells, and is closed under adjacency; every member is reachable from the root |
| Topology.FindComponents | backend/services/topology.py:69-93 | the components found partition the cells (every cell in exactly one, none repeated), each closed under adjacency, with any two members reachable from each other |
| Topology.ComponentsArePartition | backend/services/topology.py:69-93 | the components form a partition of the graph into reachability classes |
| Topology.MinCell | backend/services/topology.py:97 | `min(c)` is a member no greater, in Python's string order, than any other member |
| Topology.ComponentOrderIsTotalPreorder | backend/services/topology.py:97 | the sort key `(-len(c), min(c))` is a total preorder |
| Topology.LinkLabelInjective | backend/services/topology.py:103 | distinct indices give distinct `Link_<k>` labels |
| Topology.AssignLabel | backend/services/topology.py:104-105 | the members of one component get its label and every other entry is kept |
| Topology.LabelComponents | backend/services/topology.py:100-105 | every member of component k gets `Link_<k+1>`, and no other cell gets a label |
| Topology.WalkIffChain | backend/services/topology.py:58-65 | a walk in the adjacency is exactly a chain of above-threshold correlations |
| Topology.InferTopology | backend/services/topology.py:18-107 | the labels cover exactly the cells; the components are non-empty, connected, closed under edges and sorted by descending size then smallest cell; component k is labelled `Link_<k+1>`; two cells share a label exactly when a chain of above-threshold correlations joins them; the threshold defaults to 0.7 |
| Topology.TopologyOfPartition | backend/services/topology.py:95-105 | a sorted partition into reachability classes, labelled by position, meets the topology contract |
| Topology.SameLinkIffConnected | backend/services/topology.py:67-93 | two cells share a label exactly when a chain of above-threshold correlations joins them |
| Topology.EdgeSameLink | backend/services/topology.py:60-65 | a correlation at or above the threshold in either direction puts both cells on the same link |
| Topology.LinkLabelsUsed | backend/services/topology.py:102-105 | the labels used are exactly `Link_1 … Link_k` for k components |
| Topology.IsolatedCellAlone | backend/services/topology.py:37-44 | a cell with no above-threshold correlation shares its label with no other cell |
| Topology.PairAndIsolated | backend/services/topology.py:95-105 | of three cells, a joined pair is on `Link_1` and an isolated cell on `Link_2` |
| Topology.DocstringExample | backend/services/topology.py:37-44 | the documented matrix at threshold 0.7 gives `cell_1`, `cell_2` on `Link_1` and `cell_3` on `Link_2` |
| SlotConversion.SlotOf | backend/services/slot_conversion.py:78 | the slot is the integer with `14 * slot <= symbol_index < 14 * (slot + 1)` |
| SlotConversion.GroupKeys | backend/services/slot_conversion.py:81-84 | the (cell, slot) keys are distinct and sorted, and are exactly the keys of the rows |
| SlotConversion.SortedSymbols | backend/services/slot_conversion.py:74 | a permutation of the rows sorted by `(cell_id, symbol_index)` |
| SlotConversion.ConvertSymbolsToSlots | backend/services/slot_conversion.py:61-92 | `KeyError` listing the missing columns exactly when some required column is missing; otherwise a frame with columns `slot_id`, `cell_id`, `slot_throughput_bits` |
| SlotConversion.SlotBitsAreGroupSums | backend/services/slot_conversion.py:81-84 | each output row's bits are the sum of its group's symbol bits |
| SlotConversion.SlotRowsAreNonEmptyGroups | backend/services/slot_conversion.py:81-84 | there is an output row for a (cell, slot) exactly when some symbol falls in it |
| SlotConversion.SlotRowsSorted | backend/services/slot_conversion.py:90 | the output is strictly increasing in `(cell_id, slot_id)` |
| SlotConversion.CellTotalPreserved | backend/services/slot_conversion.py:81-84 | each cell's total bits are the same before and after conversion |
| SlotConversion.TwoUniformSlots | backend/services/slot_conversion.py:76-84 | 28 equal symbols of one cell give exactly two slots of 14 times the bits |
| SlotConversion.DocstringExample | backend/services/slot_conversion.py:47-59 | 28 symbols of 1000 bits give two slots of 14000 bits |
| SlotConversion.SlotIdsMembers | backend/services/slot_conversion.py:105-106 | the slot-id set is exactly the slot ids of the rows (of one cell, when a cell is given) |
| SlotConversion.GetSlotCount | backend/services/slot_conversion.py:95-112 | `KeyError` for a missing `slot_id` or `cell_id`; otherwise the total is the number of distinct slot ids of the rows, 0 exactly for an empty frame, and each cell's entry is the number of distinct slot ids among that cell's rows, between 1 and the total; slot size 14 |
| LinkAggregation.ColumnName | backend/services/link_aggregation.py:89-92 | the renamed column ends in `_bits`, five characters longer than the link |
| LinkAggregation.ColumnNameInverse | backend/services/link_aggregation.py:89-92 | stripping the suffix recovers the link |
| LinkAggregation.LinksOfRows | backend/services/link_aggregation.py:73 | the pivot's links are distinct and sorted, and are exactly the links of the rows' cells, `Unknown_Link` for an unmapped cell |
| LinkAggregation.SlotsOfRows | backend/services/link_aggregation.py:82-86 | the pivot's index is the distinct slot ids, ascending |
| LinkAggregation.AggregateSlotTrafficByLink | backend/services/link_aggregation.py:60-99 | `KeyError` listing the missing columns exactly when some are missing; `ValueError` exactly when a link is named `slot_id`; otherwise a table whose first column is `slot_id` |
| LinkAggregation.AggregateColumns | backend/services/link_aggregation.py:89-96 | after `slot_id`, the columns are exactly `<link>_bits` for each link present, strictly ascending |
| LinkAggregation.AggregateRows | backend/services/link_aggregation.py:82-86 | one row per distinct slot id, strictly ascending |
| LinkAggregation.AggregateValues | backend/services/link_aggregation.py:76-86 | every row has every link column and no other, holding the summed bits of the link's cells in that slot |
| LinkAggregation.NoTrafficReadsZero | backend/services/link_aggregation.py:82-86 | a (slot, link) pair with no traffic reads 0 |
| LinkAggregation.UnmappedCellOnUnknownLink | backend/services/link_aggregation.py:73 | a cell absent from the topology yields an `Unknown_Link_bits` column |
| LinkAggregation.SlotTrafficConserved | backend/services/link_aggregation.py:73-86 | in each slot, the link columns add up to all cells' traffic in that slot |
| LinkAggregation.GetLinkColumns | backend/services/link_aggregation.py:135-145 | a column is listed exactly when it ends in `_bits` |
| LinkAggregation.GetLinkColumnsInOrder | backend/services/link_aggregation.py:145 | the list is the subsequence of the table's columns that end in `_bits`: in table order, each occurrence kept once |
| LinkAggregation.AggregateLinkColumns | backend/services/link_aggregation.py:95-96 | on an aggregation result, the link columns are all columns after `slot_id` |
| LinkAggregation.StatsOf | backend/services/link_aggregation.py:125-130 | total is the column sum, 0.0 for an empty column; min and max are members bounding every value; min, max and mean are missing exactly for an empty column |
| LinkAggregation.StatsOrdered | backend/services/link_aggregation.py:126-128 | min <= mean <= max |
| LinkAggregation.StatsMeanShare | backend/services/link_aggregation.py:128-129 | mean times the number of slots is the total |
| LinkAggregation.GetLinkTrafficSummary | backend/services/link_aggregation.py:104-132 | the loop's summary is the slot count and, per link name in column order, the column's statistics |
| LinkAggregation.PerLink | backend/services/link_aggregation.py:116-131 | the dictionary a loop over link columns fills under each column's link name, later columns overwriting; every column's link name is a key |
| LinkAggregation.AggregateSummary | backend/services/link_aggregation.py:116-131 | on an aggregation result, the summary has the row count and exactly one entry per link, holding that link column's statistics |
| CapacityEstimation.BufferSizeNonNegative | backend/services/capacity_estimation.py:176 | `C * buffer_symbols / 14` is non-negative for non-negative inputs |
| CapacityEstimation.Remaining | backend/services/capacity_estimation.py:185-189 | the carry-over is the excess of arrivals over capacity, or 0 |
| CapacityEstimation.Simulation | backend/services/capacity_estimation.py:148-210 | the dictionary `simulate_buffer` returns: one slot counted per traffic entry, no more loss slots than slots, and a loss ratio of 0 exactly when no slot is lost |
| CapacityEstimation.SimulateBuffer | backend/services/capacity_estimation.py:148-210 | the loop computes the state-machine simulation of the slots from an empty buffer; `buffer_symbols` defaults to 4 |
| CapacityEstimation.SlotLoss | backend/services/capacity_estimation.py:191-197 | a slot is lost exactly when its carry-over exceeds the buffer, which then holds the smaller of the two |
| CapacityEstimation.SimulationBounds | backend/services/capacity_estimation.py:200-209 | `loss_slots <= total_slots`; the ratio is `loss/total` in [0, 1], or 0 when empty; the peak usage is within [0, buffer size] |
| CapacityEstimation.SimulationPeakUsage | backend/services/capacity_estimation.py:181-200 | `max_buffer_usage` is the peak occupancy: no slot ends with more in the buffer, and unless it is 0 some slot ends with exactly that much |
| CapacityEstimation.SimulationAtPeak | backend/services/capacity_estimation.py:183-197 | a capacity no slot exceeds loses nothing and never queues |
| CapacityEstimation.FindMinimumCapacity | backend/services/capacity_estimation.py:213-261 | the loop computes the bisection from `max(mean/2, 1)` and the peak; `buffer_symbols` defaults to 4 and `loss_tolerance` to 0.01 |
| CapacityEstimation.SearchBounds | backend/services/capacity_estimation.py:243-258 | at most 100 rounds; the final interval is at most 0.1% of the peak wide unless the limit was reached |
| CapacityEstimation.MinimumCapacity | backend/services/capacity_estimation.py:226-261 | the capacity `find_minimum_capacity` returns: 0 for no traffic; otherwise at most the peak, and either the peak or at least 1 |
| CapacityEstimation.MinimumCapacityFeasible | backend/services/capacity_estimation.py:246-261 | for non-negative traffic, buffer and tolerance, the result's loss ratio is within tolerance and the final lower bound fails it unless it never moved |
| CapacityEstimation.ColumnMax | backend/services/capacity_estimation.py:67 | a column's maximum is a member no smaller than any value, missing exactly for an empty column |
| CapacityEstimation.NoBufferCapacities | backend/services/capacity_estimation.py:21-71 | the no-buffer dictionary; it fails exactly when no column ends in `_bits`, with the `ValueError` that lists the found columns |
| CapacityEstimation.EstimateCapacityNoBuffer | backend/services/capacity_estimation.py:21-71 | the loop computes the per-link peak dictionary, or `ValueError` |
| CapacityEstimation.NoBufferIsPeak | backend/services/capacity_estimation.py:52-69 | `ValueError` exactly when no column ends in `_bits`, its message listing the found columns; otherwise one entry per link name, holding the column's peak |
| Strings.ListRepr | backend/services/capacity_estimation.py:57 | the rendering of the found columns is bracketed, like Python's list repr |
| CapacityEstimation.SortedBySlot | backend/services/capacity_estimation.py:308 | a permutation of the rows in ascending `slot_id` |
| CapacityEstimation.WithBufferCapacities | backend/services/capacity_estimation.py:264-327 | the with-buffer dictionary: `ValueError` exactly when no column ends in `_bits`; otherwise `KeyError` for `slot_id` exactly when that column is absent; otherwise one entry per link name |
| CapacityEstimation.EstimateCapacityWithBuffer | backend/services/capacity_estimation.py:264-327 | the loop computes the per-link dictionary of minimum capacities, or the `ValueError` or `KeyError`; `buffer_symbols` defaults to 4 and `loss_tolerance` to 0.01 |
| CapacityEstimation.WithBufferIsMinimum | backend/services/capacity_estimation.py:308-325 | for a frame with a `slot_id` column, the estimate succeeds and each link's entry is the minimum capacity of its traffic in slot order |
| CapacityEstimation.SlotOrderUnique | backend/services/capacity_estimation.py:308 | when the slot ids are distinct, every permutation of the rows sorted by `slot_id` is the model's slot order |
| CapacityEstimation.AggregatedInSlotOrder | backend/services/capacity_estimation.py:308 | an aggregation result is already in slot order, so sorting it by `slot_id` changes nothing |
| CapacityEstimation.WithBufferMeetsTolerance | backend/services/capacity_estimation.py:312-325 | for non-negative traffic in a frame with a `slot_id` column, each link's with-buffer capacity meets the loss tolerance |
| CapacityEstimation.WithBufferAtMostNoBuffer | backend/services/capacity_estimation.py:299-327 | the with-buffer estimate fails exactly when the no-buffer one does or `slot_id` is absent; otherwise both have the same links and the with-buffer capacity never exceeds the peak |
| CapacityEstimation.CompareOne | backend/services/capacity_estimation.py:344-355 | the entry keeps both estimates; the reduction plus the with-buffer value is the peak; the percentage is `100 * reduction / nb`, or 0 when `nb <= 0` |
| CapacityEstimation.WithBufferOrZero | backend/services/capacity_estimation.py:345 | a link missing from the with-buffer dictionary counts as 0 |
| CapacityEstimation.Comparisons | backend/services/capacity_estimation.py:330-357 | the dictionary `compare_capacity_estimates` returns has exactly the no-buffer links as keys |
| CapacityEstimation.CompareCapacityEstimates | backend/services/capacity_estimation.py:330-357 | the loop computes one comparison entry per no-buffer link |
| CapacityEstimation.ReductionBounds | backend/services/capacity_estimation.py:347-348 | with `0 <= wb <= nb` and `nb > 0`, the reduction is in [0, nb] and the percentage in [0, 100] |
| CapacityEstimation.CompareEstimates | backend/services/capacity_estimation.py:343-355 | for non-negative traffic, each link's reduction is between 0 and the peak, and its percentage between 0 and 100 |
| FeatureEngineering.SortByCellTime | backend/services/feature_engineering.py:245 | a permutation of the rows sorted by `(cell_id, timestamp)` |
| FeatureEngineering.History | backend/services/feature_engineering.py:248 | the rows of a cell up to and including row i, ending with row i |
| FeatureEngineering.SlotsSinceCongestion | backend/services/feature_engineering.py:262-271 | the counter loop yields, at each slot, the distance back to the last congested slot, or to the group's start |
| FeatureEngineering.SlotsSinceLastCongestion | backend/services/feature_engineering.py:262-275 | the column at a row is smaller than the cell's row count so far, and 0 on a congested row |
| FeatureEngineering.SinceIsDistance | backend/services/feature_engineering.py:262-271 | the counter goes back to a congested slot or to the start, with no congested slot in between |
| FeatureEngineering.SlotsSinceSteps | backend/services/feature_engineering.py:262-275 | 0 on congested rows and on each cell's first row; otherwise one more than at the cell's previous row |
| FeatureEngineering.SlotsSinceOfGroup | backend/services/feature_engineering.py:273-275 | the column is the counter over the cell's whole group, at the row's position |
| FeatureEngineering.Window | backend/services/feature_engineering.py:35 | the last `min(w, n)` entries, with `min_periods = 1` |
| FeatureEngineering.RollingMean | backend/services/feature_engineering.py:72-75 | the rolling mean times the window size is the window's sum |
| FeatureEngineering.RollingCount | backend/services/feature_engineering.py:255-258 | the rolling count is at most the window length |
| FeatureEngineering.RollingFrequency | backend/services/feature_engineering.py:250-253 | the rolling frequency lies in [0, 1] |
| FeatureEngineering.RollingMax | backend/services/feature_engineering.py:77-80 | the rolling maximum is a window member no smaller than any of them |
| FeatureEngineering.RollingMeanBounds | backend/services/feature_engineering.py:72-75 | the rolling mean lies between the window's minimum and maximum |
| FeatureEngineering.RollingSlope | backend/services/feature_engineering.py:82-86 | the slope is positive exactly when the current value is above the rolling mean, and negative exactly when it is below |
| FeatureEngineering.CongestionHistoryWindow | backend/services/feature_engineering.py:247-258 | the count is the number of congested rows among the cell's last `min(w, n)` rows and at most that; the frequency is count over `min(w, n)`, in [0, 1] |
| FeatureEngineering.CongestionCount | backend/services/feature_engineering.py:255-258 | the count is at most the window size, and at least 1 on a congested row |
| FeatureEngineering.CongestionFrequency | backend/services/feature_engineering.py:250-253 | the frequency lies in [0, 1] and is positive on a congested row |
| FeatureEngineering.ThroughputMax | backend/services/feature_engineering.py:77-80 | no row of the cell's window has a larger throughput |
| FeatureEngineering.ThroughputMaxWindow | backend/services/feature_engineering.py:77-80 | the rolling maximum is one of the window's throughputs and at least the current one |
| FeatureEngineering.Lag | backend/services/feature_engineering.py:323 | the shifted value is missing exactly when the history has at most n entries |
| FeatureEngineering.ThroughputDiff | backend/services/feature_engineering.py:326-328 | missing exactly when the lag is; otherwise the difference plus the lag is the current throughput |
| FeatureEngineering.LagIsEarlierRow | backend/services/feature_engineering.py:319-337 | the lags are missing exactly on a cell's first n rows; otherwise they are the values of the same cell's row n rows earlier |
| FeatureEngineering.ThroughputLag | backend/services/feature_engineering.py:323 | missing exactly when the cell has at most n rows so far; otherwise the throughput of the cell's row n rows back |
| FeatureEngineering.PacketLossLag | backend/services/feature_engineering.py:337 | missing exactly when the cell has at most n rows so far; otherwise the packet loss of the cell's row n rows back |
| FeatureEngineering.LinkGroup | backend/services/feature_engineering.py:186-189 | the (timestamp, link) group of a row is non-empty and contains the row |
| FeatureEngineering.LinkLoadAt | backend/services/feature_engineering.py:186-198 | the count is the group size; the total is the group's throughput sum and the average is total over count; the congestion ratio is congested cells over count, in [0, 1] |
| FeatureEngineering.LinkGroupMembers | backend/services/feature_engineering.py:178-189 | a row is in the group exactly when it has the same timestamp and link; group members get the same load; without a topology each cell is its own link |
| FeatureEngineering.LinkAverageBounds | backend/services/feature_engineering.py:187-193 | the link's average throughput lies between its smallest and largest cell throughput |
| FeatureEngineering.ForwardFill | backend/services/feature_engineering.py:407-409 | `ffill()` keeps the length and every present entry |
| FeatureEngineering.BackwardFill | backend/services/feature_engineering.py:407-409 | `bfill()` keeps the length and every present entry |
| FeatureEngineering.Fill | backend/services/feature_engineering.py:405-412 | the filled column has the same length, and each value is 0 or one of the column's present values |
| FeatureEngineering.FillPresent | backend/services/feature_engineering.py:405-412 | a present value survives the fill |
| FeatureEngineering.FillFromBefore | backend/services/feature_engineering.py:407-409 | a missing value after a present one takes the last present value before it |
| FeatureEngineering.FillFromAfter | backend/services/feature_engineering.py:407-409 | a missing value with nothing before it takes the first present value after it |
| FeatureEngineering.FillAllMissing | backend/services/feature_engineering.py:411-412 | a column missing everywhere becomes 0 |
| FeatureEngineering.LagColumn | backend/services/feature_engineering.py:323 | a cell's shifted column is missing exactly on the first n entries |
| FeatureEngineering.LagColumnFilled | backend/services/feature_engineering.py:405-412 | after the fill, a lag column holds the cell's first value on its first n rows and the lagged value after them |
| FeatureCatalogue.FeatureListLength | backend/services/feature_engineering.py:516-564 | the feature list has 50 names |
| FeatureCatalogue.FeatureListDistinct | backend/services/feature_engineering.py:516-564 | no name appears twice |
| FeatureCatalogue.GetFeatureList | backend/services/feature_engineering.py:516-564 | the loops build the list in its documented block order |
| FeatureCatalogue.AddTrendDescriptions | backend/services/feature_engineering.py:432-444 | the loop adds the mean, max and slope description for each window, in order |
| FeatureCatalogue.AddBurstDescriptions | backend/services/feature_engineering.py:447-459 | the loop adds the std, var and burstiness description for each window, in order |
| FeatureCatalogue.AddHistoryDescriptions | backend/services/feature_engineering.py:480-488 | the loop adds the frequency and count description for each window, in order |
| FeatureCatalogue.AddLagDescriptions | backend/services/feature_engineering.py:495-511 | the loop adds the four lag descriptions for each lag, in order |
| FeatureCatalogue.GetFeatureDescriptions | backend/services/feature_engineering.py:422-513 | the method builds the description dictionary |
| FeatureCatalogue.DescribedNamesDistinct | backend/services/feature_engineering.py:422-513 | no feature is described twice |
| FeatureCatalogue.DescribedFeatures | backend/services/feature_engineering.py:422-564 | a name has a description exactly when it is in the feature list and is not `throughput` |
| FeatureCatalogue.DescriptionOf | backend/services/feature_engineering.py:432-511 | each windowed or lagged feature's description is its template around its size |
| CongestionPredictor.GetRiskCategory | backend/services/congestion_predictor.py:525-532 | Low below 0.25, Medium in [0.25, 0.5), High in [0.5, 0.75), Critical from 0.75 on |
| CongestionPredictor.RiskCategoryMonotone | backend/services/congestion_predictor.py:525-532 | a higher score never gives a lower category |
| CongestionPredictor.ComputeClassWeights | backend/services/congestion_predictor.py:162-170 | keys 0 and 1, holding `n / (2 * max(count, 1))` for the negative and positive counts |
| CongestionPredictor.WeightTimesCount | backend/services/congestion_predictor.py:167-168 | a present class's weight times its count is n/2 |
| CongestionPredictor.ClassWeightsBalance | backend/services/congestion_predictor.py:162-170 | an absent class gets n/2; the rarer class gets the larger weight |
| CongestionPredictor.TruncateToInt | backend/services/congestion_predictor.py:137 | `int(x)` truncates toward zero |
| CongestionPredictor.SliceBound | backend/services/congestion_predictor.py:138-139 | a slice bound is clipped to [0, len], counting from the end when negative |
| CongestionPredictor.TemporalSplit | backend/services/congestion_predictor.py:137-139 | train followed by test is the whole sequence, cut at the slice bound of the split index; `test_size` defaults to 0.2 |
| CongestionPredictor.TemporalSplitFraction | backend/services/congestion_predictor.py:137-139 | for a test fraction in [0, 1], train is the first `floor(n * (1 - test_size))` rows and test the rest |
| CongestionPredictor.RawImportance | backend/services/congestion_predictor.py:218-225 | an importance vector exists exactly for `logistic`, `rf` and `gb`, and is non-negative for `logistic` |
| CongestionPredictor.RankImportance | backend/services/congestion_predictor.py:228-232 | a permutation of the (name, share) pairs, in non-increasing order of share; pairs with equal shares keep their zip order, since `sorted` is stable |
| Sorting.SortStable | backend/services/congestion_predictor.py:232 | sorting keeps the elements tied with any value in their original order |
| CongestionPredictor.ExtractFeatureImportance | backend/services/congestion_predictor.py:217-235 | `None` exactly for an unknown model kind |
| CongestionPredictor.NormalisedSumsToOne | backend/services/congestion_predictor.py:228 | the normalised importances sum to 1 |
| CongestionPredictor.RankedSumsToOne | backend/services/congestion_predictor.py:228-232 | the ranked shares sum to 1 |
| CongestionPredictor.RankedShares | backend/services/congestion_predictor.py:228-232 | the ranking is non-increasing and lists every feature with its share; shares are in [0, 1] for non-negative importances |
| CongestionPredictor.GetTopFeatures | backend/services/congestion_predictor.py:583-597 | `[]` without importances; otherwise the stored entries up to the slice bound of n, which defaults to 10 |
| CongestionPredictor.TopFeaturesAreMostImportant | backend/services/congestion_predictor.py:594-597 | from a ranking, the top `min(n, len)` are the first ones, and none of the rest is more important |
| CongestionPredictor.FirstMaxIndex | backend/services/congestion_predictor.py:567 | `idxmax` is the first position of a maximum |
| CongestionPredictor.CompareModels | backend/services/congestion_predictor.py:556-568 | one metrics row per model in order, holding the exact (unrounded) metrics; `KeyError` for no models; otherwise the key at the first maximal exact ROC-AUC |
| CongestionPredictor.BestModelHasHighestRocAuc | backend/services/congestion_predictor.py:567-568 | over the exact ROC-AUCs compared, the chosen model's is at least every other's, and strictly greater than those listed before it |

## Left out

- File I/O: `pd.read_csv`, `glob`, `os.path.join` and the
  `FileNotFoundError` branches. Each file is given as its path and its
  parsed records, in listing order.
- The quantile computation behind the outlier bound (`q75 + 3*IQR`, with
  pandas' interpolation). The bound is a parameter of each file.
- `parse_throughput_file` and `load_all_throughput`. These are the
  non-indexed throughput loaders: they keep the timestamp and add no
  indices. They share the outlier replacement, which is modelled.
- `get_data_summary`: a report over file counts and frames.
- `round(…, 4)` in the correlation and in `ModelMetrics.to_dict`, and
  `round(…, 2)` in the comparison.
  Values are exact.
  - Correlation.ComputeCongestionCorrelation: states the exact ratio, not
    the value rounded to 4 decimals.
  - CapacityEstimation.CompareOne: states the exact percentage, not the
    value rounded to 2 decimals.
  - CongestionPredictor.CompareModels: the metrics table and the `idxmax`
    choice use the exact metrics. The source compares the values that
    `to_dict` rounds to 4 decimals. Near-ties can then pick a different
    model: for ROC-AUCs 0.91231 then 0.91234 the source's values tie at
    0.9123 and it picks the first model, the model the second.
  - CongestionPredictor.BestModelHasHighestRocAuc: holds of the exact
    ROC-AUCs the model compares. Of the source's chosen model it holds
    only for the 4-decimal rounded values.
- Floating point: `real` is exact, so overflow, rounding and NaN
  propagation are not modelled.
  - CapacityEstimation.FindMinimumCapacity: the bisection's midpoints are
    exact. Floating-point halving could stop sooner.
- `format_capacity_report`, `capacity_to_gbps`, and the slot and symbol
  durations in seconds, which only these use. This is unit formatting.
- The rolling standard deviation, variance and coefficient of variation,
  and `throughput_pct_change` with its `1e-10` epsilon. These are
  square roots and float-only arithmetic.
- The merge of the link load back into the frame. Each row's load is
  stated directly, as the load of its (timestamp, link) group.
- `engineer_features` itself: the sequencing of the steps and their
  printing. Its fill step is modelled per cell column.
- In `congestion_predictor.py`:
  - `prepare_training_data`'s target shift, the NaN drop and
    `StandardScaler`;
  - all model training;
  - `evaluate_model`, `predict_congestion_risk`, saving and loading;
  - these are calls into scikit-learn. Only the split index is modelled.
- The `verbose` printing of `compare_models`: the table and the chosen
  model's name. This is console output only.
- CongestionPredictor.ExtractFeatureImportance: requires a non-zero
  importance sum. Dividing by a zero sum gives NaN shares in numpy, which
  is not modelled. Nor is the `except Exception` path for models without
  the attribute, or `dict(zip(…))` collapsing repeated feature names.
- CapacityEstimation.EstimateCapacityNoBuffer: the peak of an empty
  column (NaN in pandas) is `None`.
- Sort stability: pandas' single-key `sort_values` is not stable. The
  model sorts stably. ParseThroughputFileIndexed states only that its rows
  come from some timestamp-sorted permutation, which holds for any order
  of ties.
- CapacityEstimation.WithBufferIsMinimum: states the minimum capacity for
  the traffic in the model's stable slot order. An unstable sort could
  order rows with a repeated slot id differently. With distinct slot ids
  the order is unique (SlotOrderUnique), and an aggregation result is
  already in that order (AggregatedInSlotOrder).
- Strings.ListRepr: quotes each name with `'` and does not escape quotes
  or backslashes inside a name as Python's repr does.
- `prepare_training_data`'s `target_column` and `prediction_horizon`
  parameters, with their defaults. They feed only the target shift, which
  is not modelled.
- LinkAggregation.AggregateSummary: assumes no link label contains
  `_bits`. `str.replace` would alter such a label, and two columns could
  then collapse into one summary entry. The general case is stated by
  `GetLinkTrafficSummary`.
- `backend/app.py`, the data loader, the training and demo scripts, and
  plotting. These are web, file and printing plumbing around the services.
