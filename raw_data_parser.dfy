/** The column computations of the raw `.dat` parser: packet loss per
    pkt-stats line, outlier removal, symbol indexing and kbit-to-bit
    conversion for throughput files, the file-name to cell-id mapping, the
    combination of per-file frames, and the column mapping of `load_raw_data`.
    File contents arrive already read: one record per line, and for a
    throughput file the IQR outlier bound that pandas computed from it. */
module RawDataParser {
  import opened Seqs
  import opened Strings
  import opened Sorting
  import opened Frames

  /** One line of `pkt-stats-cell-<n>.dat`. */
  datatype PktRecord = PktRecord(timestamp: real, txPackets: int, rxPackets: int, tooLateRxPackets: int)

  /** One row of the frame `parse_pkt_stats_file` returns. */
  datatype PktStatsRow = PktStatsRow(
    timestamp: real, txPackets: int, rxPackets: int, tooLateRxPackets: int,
    cellId: CellId, packetLoss: int)

  /** One line of `throughput-cell-<n>.dat`. */
  datatype ThroughputRecord = ThroughputRecord(timestamp: real, throughputKbit: real)

  /** A pkt-stats file: its path and its lines. */
  datatype PktStatsFile = PktStatsFile(path: string, records: seq<PktRecord>)

  /** A throughput file: its path, its lines, and its outlier bound `q75 + 3 * IQR`. */
  datatype ThroughputFile = ThroughputFile(path: string, records: seq<ThroughputRecord>, upperBound: real)

  const PktStatsPrefix := "pkt-stats-cell-"
  const ThroughputPrefix := "throughput-cell-"
  const DatSuffix := ".dat"

  /** `(txPackets - rxPackets) + tooLateRxPackets`, clipped below at 0: packets sent
      but not received plus packets received too late. */
  function PacketLoss(txPackets: int, rxPackets: int, tooLateRxPackets: int): (loss: int)
    ensures loss >= 0
    ensures loss >= txPackets - rxPackets + tooLateRxPackets
    ensures txPackets - rxPackets + tooLateRxPackets >= 0 ==> loss == txPackets - rxPackets + tooLateRxPackets
    ensures txPackets - rxPackets + tooLateRxPackets < 0 ==> loss == 0
  {
    var raw := (txPackets - rxPackets) + tooLateRxPackets;
    if raw < 0 then 0 else raw
  }

  /** `parse_pkt_stats_file` on the lines of one file. */
  function ParsePktStatsFile(records: seq<PktRecord>, cellId: CellId): (rows: seq<PktStatsRow>)
    ensures |rows| == |records|
    ensures forall i :: 0 <= i < |rows| ==>
      var r := records[i];
      rows[i] == PktStatsRow(r.timestamp, r.txPackets, r.rxPackets, r.tooLateRxPackets, cellId,
                             PacketLoss(r.txPackets, r.rxPackets, r.tooLateRxPackets))
    ensures forall i :: 0 <= i < |rows| ==> rows[i].packetLoss >= 0
  {
    seq(|records|, i requires 0 <= i < |records| =>
      var r := records[i];
      PktStatsRow(r.timestamp, r.txPackets, r.rxPackets, r.tooLateRxPackets, cellId,
                  PacketLoss(r.txPackets, r.rxPackets, r.tooLateRxPackets)))
  }

  /** `df.loc[df['throughput_kbit'] > upper_bound, 'throughput_kbit'] = 0`. */
  function ReplaceOutliers(values: seq<real>, upperBound: real): (r: seq<real>)
    ensures |r| == |values|
    ensures forall i :: 0 <= i < |values| && values[i] > upperBound ==> r[i] == 0.0
    ensures forall i :: 0 <= i < |values| && values[i] <= upperBound ==> r[i] == values[i]
    ensures forall i :: 0 <= i < |r| ==> r[i] <= upperBound || r[i] == 0.0
  {
    seq(|values|, i requires 0 <= i < |values| => if values[i] > upperBound then 0.0 else values[i])
  }

  /** `sort_values('timestamp')`. */
  predicate TimestampOrder(a: ThroughputRecord, b: ThroughputRecord)
  {
    a.timestamp <= b.timestamp
  }

  lemma TimestampOrderIsTotalPreorder()
    ensures TotalPreorder(TimestampOrder)
  {
  }

  /** `parse_throughput_file_indexed` on the lines of one file: sort by timestamp,
      zero the outliers, number the symbols from 0 and convert kbit to bits. */
  function ParseThroughputFileIndexed(records: seq<ThroughputRecord>, cellId: CellId, upperBound: real)
    : (rows: seq<SymbolRow>)
    ensures |rows| == |records|
    ensures forall i :: 0 <= i < |rows| ==> rows[i].cellId == cellId && rows[i].symbolIndex == i
    ensures exists sorted: seq<ThroughputRecord> ::
      && |sorted| == |rows|
      && SortedBy(sorted, TimestampOrder)
      && multiset(sorted) == multiset(records)
      && forall i :: 0 <= i < |rows| ==>
           rows[i].throughputBits ==
             1000.0 * (if sorted[i].throughputKbit > upperBound then 0.0 else sorted[i].throughputKbit)
  {
    TimestampOrderIsTotalPreorder();
    var sorted := Sort(records, TimestampOrder);
    var kbit := ReplaceOutliers(seq(|sorted|, i requires 0 <= i < |sorted| => sorted[i].throughputKbit), upperBound);
    seq(|sorted|, i requires 0 <= i < |sorted| => SymbolRow(cellId, i, kbit[i] * 1000.0))
  }

  /** `os.path.basename(path)`: the part after the last `/`. */
  function Basename(path: string): (name: string)
    ensures '/' !in name
    ensures EndsWith(path, name)
  {
    if |path| == 0 || path[|path| - 1] == '/' then ""
    else
      var init := Basename(path[..|path| - 1]);
      assert path[|path| - |init| - 1..] == path[..|path| - 1][|path| - 1 - |init|..] + [path[|path| - 1]];
      init + [path[|path| - 1]]
  }

  lemma {:induction false} BasenameOfJoin(dir: string, name: string)
    requires '/' !in name
    ensures Basename(dir + "/" + name) == name
    decreases |name|
  {
    if |name| == 0 {
      assert dir + "/" + name == dir + "/";
    } else {
      var p := dir + "/" + name;
      assert p[..|p| - 1] == dir + "/" + name[..|name| - 1];
      BasenameOfJoin(dir, name[..|name| - 1]);
      assert name == name[..|name| - 1] + [name[|name| - 1]];
    }
  }

  /** `f"cell_{filename.replace(prefix, '').replace('.dat', '')}"`. */
  function CellIdFromFilename(filename: string, prefix: string): (id: CellId)
    requires |prefix| > 0
    ensures |id| >= 5 && id[..5] == "cell_"
  {
    "cell_" + ReplaceAll(ReplaceAll(filename, prefix, ""), DatSuffix, "")
  }

  /** A file named `<prefix><n>.dat`, where `n` contains neither `-` nor `.`,
      belongs to the cell `cell_<n>`. */
  lemma CellIdOfDatFile(prefix: string, n: string)
    requires prefix == PktStatsPrefix || prefix == ThroughputPrefix
    requires '-' !in n && '.' !in n
    ensures CellIdFromFilename(prefix + n + DatSuffix, prefix) == "cell_" + n
  {
    assert prefix + n + DatSuffix == prefix + (n + DatSuffix);
    ReplaceAllLeading(prefix, n + DatSuffix, "");
    assert '-' in prefix;
    assert '-' !in n + DatSuffix;
    ReplaceAllAbsent(n + DatSuffix, prefix, "", '-');
    assert "" + (n + DatSuffix) == n + DatSuffix;
    ReplaceAllTrailing(n, DatSuffix);
  }

  /** The frames of all parsed pkt-stats files, in the order the files were listed. */
  function ParsedPktStats(files: seq<PktStatsFile>): seq<PktStatsRow>
  {
    if |files| == 0 then []
    else
      var f := files[|files| - 1];
      ParsedPktStats(files[..|files| - 1])
        + ParsePktStatsFile(f.records, CellIdFromFilename(Basename(f.path), PktStatsPrefix))
  }

  /** `load_all_pkt_stats` once the directory listing is known: parse each file
      under the cell id its name gives, and concatenate. */
  method LoadAllPktStats(files: seq<PktStatsFile>) returns (combined: seq<PktStatsRow>)
    ensures combined == ParsedPktStats(files)
    ensures forall i :: 0 <= i < |combined| ==> combined[i].packetLoss >= 0
  {
    var allData: seq<PktStatsRow> := [];
    for i := 0 to |files|
      invariant allData == ParsedPktStats(files[..i])
    {
      var f := files[i];
      var cellId := CellIdFromFilename(Basename(f.path), PktStatsPrefix);
      allData := allData + ParsePktStatsFile(f.records, cellId);
      PktStatsStep(files, i);
    }
    assert files[..|files|] == files;
    combined := allData;
    PktStatsLossNonNegative(files);
  }

  lemma PktStatsStep(files: seq<PktStatsFile>, i: nat)
    requires i < |files|
    ensures ParsedPktStats(files[..i + 1]) == ParsedPktStats(files[..i])
      + ParsePktStatsFile(files[i].records, CellIdFromFilename(Basename(files[i].path), PktStatsPrefix))
  {
    assert files[..i + 1][..i] == files[..i];
  }

  lemma {:induction false} PktStatsLossNonNegative(files: seq<PktStatsFile>)
    ensures forall i :: 0 <= i < |ParsedPktStats(files)| ==> ParsedPktStats(files)[i].packetLoss >= 0
  {
    if |files| > 0 { PktStatsLossNonNegative(files[..|files| - 1]); }
  }

  /** The frames of all parsed throughput files, in the order the files were listed. */
  function ParsedThroughput(files: seq<ThroughputFile>): seq<SymbolRow>
  {
    if |files| == 0 then []
    else
      var f := files[|files| - 1];
      ParsedThroughput(files[..|files| - 1])
        + ParseThroughputFileIndexed(f.records, CellIdFromFilename(Basename(f.path), ThroughputPrefix), f.upperBound)
  }

  lemma ThroughputStep(files: seq<ThroughputFile>, i: nat)
    requires i < |files|
    ensures ParsedThroughput(files[..i + 1]) == ParsedThroughput(files[..i])
      + ParseThroughputFileIndexed(files[i].records, CellIdFromFilename(Basename(files[i].path), ThroughputPrefix), files[i].upperBound)
  {
    assert files[..i + 1][..i] == files[..i];
  }

  /** `load_all_throughput_indexed` once the directory listing is known: parse
      each file, concatenate, and sort by `(cell_id, symbol_index)`. */
  method LoadAllThroughputIndexed(files: seq<ThroughputFile>) returns (combined: seq<SymbolRow>)
    ensures SortedBy(combined, SymbolOrder)
    ensures multiset(combined) == multiset(ParsedThroughput(files))
  {
    var allData: seq<SymbolRow> := [];
    for i := 0 to |files|
      invariant allData == ParsedThroughput(files[..i])
    {
      var f := files[i];
      var cellId := CellIdFromFilename(Basename(f.path), ThroughputPrefix);
      allData := allData + ParseThroughputFileIndexed(f.records, cellId, f.upperBound);
      ThroughputStep(files, i);
    }
    assert files[..|files|] == files;
    SymbolOrderIsTotalPreorder();
    combined := Sort(allData, SymbolOrder);
  }

  /** `load_raw_data`: the pkt-stats frame with `txPackets` standing in for
      `throughput` and `packet_loss` carried over. */
  function LoadRawData(pktStats: seq<PktStatsRow>): (frame: Frame<TrafficRow>)
    ensures frame.columns == {"timestamp", "cell_id", "throughput", "packet_loss"}
    ensures |frame.rows| == |pktStats|
    ensures forall i :: 0 <= i < |pktStats| ==>
      && frame.rows[i].timestamp == pktStats[i].timestamp
      && frame.rows[i].cellId == pktStats[i].cellId
      && frame.rows[i].throughput == pktStats[i].txPackets as real
      && frame.rows[i].packetLoss == pktStats[i].packetLoss
  {
    Frame({"timestamp", "cell_id", "throughput", "packet_loss"},
          seq(|pktStats|, i requires 0 <= i < |pktStats| =>
            var p := pktStats[i];
            TrafficRow(p.timestamp, p.cellId, p.txPackets as real, p.packetLoss, false)))
  }
}
