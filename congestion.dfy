/** Congestion flagging: a row is congested exactly when it lost packets. */
module Congestion {
  import opened Wrappers
  import opened Frames

  /** `detect_congestion`: a copy of the frame with `is_congested = packet_loss > 0`,
      or `KeyError` when the frame has no `packet_loss` column. */
  function DetectCongestion(df: Frame<TrafficRow>): (r: Result<Frame<TrafficRow>>)
    ensures "packet_loss" !in df.columns <==> r == Failure(KeyError(["packet_loss"]))
    ensures r.Success? ==>
      && r.value.columns == df.columns + {"is_congested"}
      && |r.value.rows| == |df.rows|
      && forall i :: 0 <= i < |df.rows| ==>
           r.value.rows[i] == df.rows[i].(isCongested := df.rows[i].packetLoss > 0)
  {
    if "packet_loss" !in df.columns then Failure(KeyError(["packet_loss"]))
    else
      Success(Frame(df.columns + {"is_congested"},
                    seq(|df.rows|, i requires 0 <= i < |df.rows| =>
                      df.rows[i].(isCongested := df.rows[i].packetLoss > 0))))
  }

  /** Flagging twice gives the same frame as flagging once. */
  lemma DetectCongestionIdempotent(df: Frame<TrafficRow>)
    requires "packet_loss" in df.columns
    ensures DetectCongestion(DetectCongestion(df).value) == DetectCongestion(df)
  {
    var once := DetectCongestion(df).value;
    assert once.columns + {"is_congested"} == once.columns;
    assert DetectCongestion(once).value.rows == once.rows;
  }

  /** The documented example: losses 0 and 5 give `[False, True]`. */
  lemma DocstringExample()
    ensures
      var df := Frame({"timestamp", "cell_id", "throughput", "packet_loss"},
                      [TrafficRow(0.0, "cell_1", 100.0, 0, false),
                       TrafficRow(60.0, "cell_2", 95.0, 5, false)]);
      var r := DetectCongestion(df);
      r.Success? && |r.value.rows| == 2 && !r.value.rows[0].isCongested && r.value.rows[1].isCongested
  {
  }
}
