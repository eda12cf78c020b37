/** The catalogue of engineered features: the names the model trains on, in
    the order the pipeline lists them, and the description of each. A
    windowed or lagged feature is named `<stem>_<n>`. */
module FeatureCatalogue {
  import opened Seqs
  import opened Strings
  import opened FeatureEngineering

  /** `f"{stem}_{n}"`. */
  function Named(stem: string, n: nat): string
  {
    stem + "_" + NatToString(n)
  }

  /** A name `<stem>_<n>` starts with its stem and an underscore and ends in a digit. */
  lemma NamedShape(stem: string, n: nat)
    ensures |Named(stem, n)| > |stem| && Named(stem, n)[..|stem|] == stem && Named(stem, n)[|stem|] == '_'
    ensures IsDigit(Named(stem, n)[|Named(stem, n)| - 1])
  {
    var x, d := Named(stem, n), NatToString(n);
    assert x[|x| - 1] == d[|d| - 1];
  }

  /** A name `<stem>_<n>` determines both its stem and its number. */
  lemma NamedInjective(s1: string, n1: nat, s2: string, n2: nat)
    requires Named(s1, n1) == Named(s2, n2)
    ensures s1 == s2 && n1 == n2
  {
    var x, d1, d2 := Named(s1, n1), NatToString(n1), NatToString(n2);
    NamedShape(s1, n1);
    NamedShape(s2, n2);
    if |d1| == |d2| {
      assert s1 + "_" == x[..|x| - |d1|] == s2 + "_";
      assert s1 == (s1 + "_")[..|s1|];
      assert d1 == x[|x| - |d1|..] == d2;
      NatToStringInjective(n1, n2);
    }
  }

  /** A name that does not end in a digit is no `<stem>_<n>`. */
  lemma NotNamed(p: string, s: string, n: nat)
    requires |p| > 0 && !IsDigit(p[|p| - 1])
    ensures p != Named(s, n)
  {
    NamedShape(s, n);
  }

  /** The names one window or lag size contributes: `<stem>_<n>` per stem. */
  function PerSize(stems: seq<string>, n: nat): (r: seq<string>)
    ensures |r| == |stems| && forall k | 0 <= k < |stems| :: r[k] == Named(stems[k], n)
  {
    seq(|stems|, k requires 0 <= k < |stems| => Named(stems[k], n))
  }

  /** `for n in ns: features.extend([f"{stem}_{n}" for stem in stems])`. */
  function Block(stems: seq<string>, ns: seq<nat>): seq<string>
  {
    if |ns| == 0 then [] else Block(stems, ns[..|ns| - 1]) + PerSize(stems, ns[|ns| - 1])
  }

  lemma {:induction false} BlockLength(stems: seq<string>, ns: seq<nat>)
    ensures |Block(stems, ns)| == |stems| * |ns|
  {
    if |ns| > 0 {
      BlockLength(stems, ns[..|ns| - 1]);
      assert |stems| * |ns| == |stems| * (|ns| - 1) + |stems|;
    }
  }

  /** A block holds exactly the names `<stem>_<n>` of its stems and sizes. */
  lemma {:induction false} BlockMembers(stems: seq<string>, ns: seq<nat>, x: string)
    ensures x in Block(stems, ns) <==> exists s, n :: s in stems && n in ns && x == Named(s, n)
  {
    if |ns| > 0 {
      var init, last := ns[..|ns| - 1], ns[|ns| - 1];
      BlockMembers(stems, init, x);
      assert ns == init + [last];
      if x in PerSize(stems, last) {
        var k :| 0 <= k < |stems| && PerSize(stems, last)[k] == x;
        assert stems[k] in stems && last in ns;
      }
      if exists s, n :: s in stems && n in ns && x == Named(s, n) {
        var s, n :| s in stems && n in ns && x == Named(s, n);
        if n == last {
          var k :| 0 <= k < |stems| && stems[k] == s;
          assert PerSize(stems, last)[k] == x;
        } else {
          assert n in init;
        }
      }
    }
  }

  /** Distinct stems and distinct sizes give distinct names. */
  lemma {:induction false} BlockDistinct(stems: seq<string>, ns: seq<nat>)
    requires Distinct(stems) && Distinct(ns)
    ensures Distinct(Block(stems, ns))
  {
    if |ns| > 0 {
      var init, last := ns[..|ns| - 1], ns[|ns| - 1];
      BlockDistinct(stems, init);
      var p := PerSize(stems, last);
      forall i, j | 0 <= i < j < |p| ensures p[i] != p[j] {
        if p[i] == p[j] { NamedInjective(stems[i], last, stems[j], last); }
      }
      forall x | x in Block(stems, init) ensures x !in p {
        BlockMembers(stems, init, x);
        var s, n :| s in stems && n in init && x == Named(s, n);
        if x in p {
          var k :| 0 <= k < |p| && p[k] == x;
          NamedInjective(s, n, stems[k], last);
        }
      }
      DistinctConcat(Block(stems, init), p);
    }
  }

  /** Blocks over stems with no stem in common share no name. */
  lemma BlocksDisjoint(stems1: seq<string>, ns1: seq<nat>, stems2: seq<string>, ns2: seq<nat>, x: string)
    requires forall s :: s in stems1 ==> s !in stems2
    requires x in Block(stems1, ns1)
    ensures x !in Block(stems2, ns2)
  {
    BlockMembers(stems1, ns1, x);
    BlockMembers(stems2, ns2, x);
    var s1, n1 :| s1 in stems1 && n1 in ns1 && x == Named(s1, n1);
    if x in Block(stems2, ns2) {
      var s2, n2 :| s2 in stems2 && n2 in ns2 && x == Named(s2, n2);
      NamedInjective(s1, n1, s2, n2);
    }
  }

  /** A name ending in a letter is in no block. */
  lemma PlainNotInBlock(p: string, stems: seq<string>, ns: seq<nat>)
    requires |p| > 0 && !IsDigit(p[|p| - 1])
    ensures p !in Block(stems, ns)
  {
    BlockMembers(stems, ns, p);
  }

  const RollingStems: seq<string> :=
    ["throughput_mean", "throughput_max", "throughput_slope", "throughput_std", "throughput_var", "burstiness_coef"]
  const LinkFeatures: seq<string> :=
    ["link_total_throughput", "link_avg_throughput", "link_cell_count", "link_congestion_ratio"]
  const HistoryStems: seq<string> := ["congestion_freq", "congestion_count"]
  const LagStems: seq<string> := ["throughput_lag", "throughput_diff", "throughput_pct_change", "packet_loss_lag"]

  /** The list `get_feature_list` returns. */
  function FeatureList(): seq<string>
  {
    Block(RollingStems, WindowSizes) + LinkFeatures + Block(HistoryStems, WindowSizes)
      + ["slots_since_last_congestion"] + Block(LagStems, LagPeriods) + ["throughput"]
  }

  /** Fifty features. */
  lemma FeatureListLength()
    ensures |FeatureList()| == 50
  {
    BlockLength(RollingStems, WindowSizes);
    BlockLength(HistoryStems, WindowSizes);
    BlockLength(LagStems, LagPeriods);
  }

  /** The plain names are in no block. */
  lemma PlainNamesApart(p: string)
    requires p in LinkFeatures + ["slots_since_last_congestion", "throughput"]
    ensures p !in Block(RollingStems, WindowSizes)
    ensures p !in Block(HistoryStems, WindowSizes)
    ensures p !in Block(LagStems, LagPeriods)
  {
    PlainNotInBlock(p, RollingStems, WindowSizes);
    PlainNotInBlock(p, HistoryStems, WindowSizes);
    PlainNotInBlock(p, LagStems, LagPeriods);
  }

  /** No stem is in two of the stem lists. */
  lemma StemsApart()
    ensures forall s | s in RollingStems :: s !in HistoryStems && s !in LagStems
    ensures forall s | s in HistoryStems :: s !in LagStems
  {
  }

  /** Each block is duplicate-free and the three share no name. */
  lemma BlocksApart()
    ensures Distinct(Block(RollingStems, WindowSizes))
    ensures Distinct(Block(HistoryStems, WindowSizes))
    ensures Distinct(Block(LagStems, LagPeriods))
    ensures forall x | x in Block(RollingStems, WindowSizes) ::
      x !in Block(HistoryStems, WindowSizes) && x !in Block(LagStems, LagPeriods)
    ensures forall x | x in Block(HistoryStems, WindowSizes) :: x !in Block(LagStems, LagPeriods)
  {
    BlockDistinct(RollingStems, WindowSizes);
    BlockDistinct(HistoryStems, WindowSizes);
    BlockDistinct(LagStems, LagPeriods);
    StemsApart();
    forall x | x in Block(RollingStems, WindowSizes)
      ensures x !in Block(HistoryStems, WindowSizes) && x !in Block(LagStems, LagPeriods)
    {
      BlocksDisjoint(RollingStems, WindowSizes, HistoryStems, WindowSizes, x);
      BlocksDisjoint(RollingStems, WindowSizes, LagStems, LagPeriods, x);
    }
    forall x | x in Block(HistoryStems, WindowSizes) ensures x !in Block(LagStems, LagPeriods) {
      BlocksDisjoint(HistoryStems, WindowSizes, LagStems, LagPeriods, x);
    }
  }

  /** Every feature name is listed once. */
  lemma FeatureListDistinct()
    ensures Distinct(FeatureList())
  {
    var b1, b2, b3 := Block(RollingStems, WindowSizes), Block(HistoryStems, WindowSizes), Block(LagStems, LagPeriods);
    BlocksApart();
    forall p | p in LinkFeatures + ["slots_since_last_congestion", "throughput"] ensures p !in b1 && p !in b2 && p !in b3 {
      PlainNamesApart(p);
    }
    var a1 := b1 + LinkFeatures;
    DistinctConcat(b1, LinkFeatures);
    var a2 := a1 + b2;
    DistinctConcat(a1, b2);
    var a3 := a2 + ["slots_since_last_congestion"];
    DistinctConcat(a2, ["slots_since_last_congestion"]);
    var a4 := a3 + b3;
    DistinctConcat(a3, b3);
    DistinctConcat(a4, ["throughput"]);
  }

  /** The names one window contributes to the rolling and burstiness part,
      as the source lists them. */
  lemma RollingNames(window: nat)
    ensures PerSize(RollingStems, window) == [
      Named("throughput_mean", window), Named("throughput_max", window), Named("throughput_slope", window),
      Named("throughput_std", window), Named("throughput_var", window), Named("burstiness_coef", window)]
  {
  }

  lemma HistoryNames(window: nat)
    ensures PerSize(HistoryStems, window) == [Named("congestion_freq", window), Named("congestion_count", window)]
  {
  }

  lemma LagNames(lag: nat)
    ensures PerSize(LagStems, lag) == [
      Named("throughput_lag", lag), Named("throughput_diff", lag),
      Named("throughput_pct_change", lag), Named("packet_loss_lag", lag)]
  {
  }

  /** `get_feature_list`: the rolling and burstiness names per window, the
      link names, the congestion-history names per window, the slots-since
      name, the lag names per lag, and the raw throughput. */
  method GetFeatureList() returns (features: seq<string>)
    ensures features == FeatureList()
  {
    features := [];
    ghost var head := features;
    for i := 0 to |WindowSizes|
      invariant features == head + Block(RollingStems, WindowSizes[..i])
    {
      var window := WindowSizes[i];
      RollingNames(window);
      ExtendBlock(features, head, RollingStems, WindowSizes, i);
      features := features + [
        Named("throughput_mean", window),
        Named("throughput_max", window),
        Named("throughput_slope", window),
        Named("throughput_std", window),
        Named("throughput_var", window),
        Named("burstiness_coef", window)];
    }
    assert WindowSizes[..|WindowSizes|] == WindowSizes;
    features := features + LinkFeatures;
    head := features;
    for i := 0 to |WindowSizes|
      invariant features == head + Block(HistoryStems, WindowSizes[..i])
    {
      var window := WindowSizes[i];
      HistoryNames(window);
      ExtendBlock(features, head, HistoryStems, WindowSizes, i);
      features := features + [Named("congestion_freq", window), Named("congestion_count", window)];
    }
    features := features + ["slots_since_last_congestion"];
    head := features;
    var lags: seq<nat> := [1, 2, 3, 5, 10];
    for i := 0 to |lags|
      invariant features == head + Block(LagStems, lags[..i])
    {
      var lag := lags[i];
      LagNames(lag);
      ExtendBlock(features, head, LagStems, lags, i);
      features := features + [
        Named("throughput_lag", lag),
        Named("throughput_diff", lag),
        Named("throughput_pct_change", lag),
        Named("packet_loss_lag", lag)];
    }
    assert lags[..|lags|] == lags == LagPeriods;
    features := features + ["throughput"];
  }

  /** Extending a list that ends in the block of the first `i` sizes by the
      names of size `i` ends it in the block of the first `i + 1` sizes. */
  lemma ExtendBlock(f: seq<string>, head: seq<string>, stems: seq<string>, ns: seq<nat>, i: nat)
    requires i < |ns| && f == head + Block(stems, ns[..i])
    ensures f + PerSize(stems, ns[i]) == head + Block(stems, ns[..i + 1])
  {
    assert ns[..i + 1][..i] == ns[..i];
  }

  // ---------------------------------------------------------------------------
  // Feature descriptions
  // ---------------------------------------------------------------------------

  /** The description of a windowed or lagged feature: fixed text around its size. */
  datatype Template = Template(stem: string, before: string, after: string)

  function Describe(t: Template, n: nat): string
  {
    t.before + NatToString(n) + t.after
  }

  const MeanTemplate := Template("throughput_mean",
    "Rolling average throughput over last ", " slots. Higher values indicate sustained high load.")
  const MaxTemplate := Template("throughput_max",
    "Peak throughput in last ", " slots. Captures demand spikes that may cause congestion.")
  const SlopeTemplate := Template("throughput_slope",
    "Throughput trend over ", " slots. Positive values indicate increasing load.")
  const StdTemplate := Template("throughput_std",
    "Standard deviation of throughput over ", " slots. High values indicate bursty, unpredictable traffic.")
  const VarTemplate := Template("throughput_var",
    "Variance of throughput over ", " slots. Emphasizes large deviations from mean.")
  const BurstinessTemplate := Template("burstiness_coef",
    "Coefficient of variation over ", " slots. Normalized burstiness measure.")
  const FreqTemplate := Template("congestion_freq",
    "Fraction of congested slots in last ", " slots. Historical congestion propensity.")
  const CountTemplate := Template("congestion_count",
    "Number of congestion events in last ", " slots. Raw congestion count.")
  const LagTemplate := Template("throughput_lag",
    "Throughput value from ", " slots ago. Captures delayed temporal patterns.")
  const DiffTemplate := Template("throughput_diff",
    "Throughput change from ", " slots ago. Rate of change indicator.")
  const PctChangeTemplate := Template("throughput_pct_change",
    "Percentage throughput change from ", " slots ago. Normalized rate of change.")
  const LossLagTemplate := Template("packet_loss_lag",
    "Packet loss from ", " slots ago. Past congestion indicator.")

  const TrendTemplates: seq<Template> := [MeanTemplate, MaxTemplate, SlopeTemplate]
  const BurstTemplates: seq<Template> := [StdTemplate, VarTemplate, BurstinessTemplate]
  const HistoryTemplates: seq<Template> := [FreqTemplate, CountTemplate]
  const LagTemplates: seq<Template> := [LagTemplate, DiffTemplate, PctChangeTemplate, LossLagTemplate]

  const LinkDescriptions: seq<(string, string)> := [
    ("link_total_throughput",
     "Total throughput across all cells on the same link. Higher values indicate more competition for shared bandwidth."),
    ("link_avg_throughput",
     "Average throughput per cell on the shared link. Indicates per-cell share of link capacity."),
    ("link_cell_count",
     "Number of cells sharing the same link. More cells mean more contention."),
    ("link_congestion_ratio",
     "Fraction of cells on the link that are congested. High ratio indicates link-wide congestion.")]
  const SlotsSinceDescription: (string, string) := ("slots_since_last_congestion",
    "Number of slots since last congestion event. Lower values indicate active congestion episode.")

  function Stems(ts: seq<Template>): (r: seq<string>)
    ensures |r| == |ts| && forall k | 0 <= k < |ts| :: r[k] == ts[k].stem
  {
    seq(|ts|, k requires 0 <= k < |ts| => ts[k].stem)
  }

  /** The keys of a list of entries. */
  function KeysOf(ps: seq<(string, string)>): (r: seq<string>)
    ensures |r| == |ps| && forall k | 0 <= k < |ps| :: r[k] == ps[k].0
  {
    seq(|ps|, k requires 0 <= k < |ps| => ps[k].0)
  }

  lemma KeysOfAppend(a: seq<(string, string)>, b: seq<(string, string)>)
    ensures KeysOf(a + b) == KeysOf(a) + KeysOf(b)
  {
  }

  /** The entries one size contributes: a name and its description per template. */
  function Entries(ts: seq<Template>, n: nat): (e: seq<(string, string)>)
    ensures |e| == |ts| && forall k | 0 <= k < |ts| :: e[k] == (Named(ts[k].stem, n), Describe(ts[k], n))
  {
    seq(|ts|, k requires 0 <= k < |ts| => (Named(ts[k].stem, n), Describe(ts[k], n)))
  }

  /** The entries of `for n in ns:` over the templates `ts`, in order. */
  function DescribedBlock(ts: seq<Template>, ns: seq<nat>): seq<(string, string)>
  {
    if |ns| == 0 then [] else DescribedBlock(ts, ns[..|ns| - 1]) + Entries(ts, ns[|ns| - 1])
  }

  /** The keys of a described block are the block of the templates' stems. */
  lemma {:induction false} DescribedBlockKeys(ts: seq<Template>, ns: seq<nat>)
    ensures KeysOf(DescribedBlock(ts, ns)) == Block(Stems(ts), ns)
  {
    if |ns| > 0 {
      DescribedBlockKeys(ts, ns[..|ns| - 1]);
      KeysOfAppend(DescribedBlock(ts, ns[..|ns| - 1]), Entries(ts, ns[|ns| - 1]));
    }
  }

  /** Every template and size has its entry in the block. */
  lemma {:induction false} DescribedBlockHas(ts: seq<Template>, ns: seq<nat>, t: Template, n: nat)
    requires t in ts && n in ns
    ensures (Named(t.stem, n), Describe(t, n)) in DescribedBlock(ts, ns)
  {
    var init, last := ns[..|ns| - 1], ns[|ns| - 1];
    if n == last {
      var k :| 0 <= k < |ts| && ts[k] == t;
      assert Entries(ts, last)[k] == (Named(t.stem, n), Describe(t, n));
    } else {
      assert ns == init + [last];
      DescribedBlockHas(ts, init, t, n);
    }
  }

  /** `m[k] = v` for each entry `(k, v)` in order. */
  function Update(m: map<string, string>, ps: seq<(string, string)>): map<string, string>
  {
    if |ps| == 0 then m else Update(m, ps[..|ps| - 1])[ps[|ps| - 1].0 := ps[|ps| - 1].1]
  }

  lemma {:induction false} UpdateAppend(m: map<string, string>, a: seq<(string, string)>, b: seq<(string, string)>)
    ensures Update(m, a + b) == Update(Update(m, a), b)
  {
    if |b| > 0 {
      assert (a + b)[..|a + b| - 1] == a + b[..|b| - 1];
      UpdateAppend(m, a, b[..|b| - 1]);
    } else {
      assert a + b == a;
    }
  }

  /** The keys after the updates are the old keys and the entries' keys. */
  lemma {:induction false} UpdateKeys(m: map<string, string>, ps: seq<(string, string)>, x: string)
    ensures x in Update(m, ps) <==> x in m || x in KeysOf(ps)
  {
    if |ps| > 0 {
      UpdateKeys(m, ps[..|ps| - 1], x);
      assert KeysOf(ps) == KeysOf(ps[..|ps| - 1]) + [ps[|ps| - 1].0];
    }
  }

  /** With distinct keys, every entry's value is what its key maps to. */
  lemma {:induction false} UpdateValue(m: map<string, string>, ps: seq<(string, string)>, p: (string, string))
    requires Distinct(KeysOf(ps)) && p in ps
    ensures p.0 in Update(m, ps) && Update(m, ps)[p.0] == p.1
  {
    var init := ps[..|ps| - 1];
    if p != ps[|ps| - 1] {
      assert p in init;
      var k :| 0 <= k < |init| && init[k] == p;
      assert KeysOf(ps)[k] != KeysOf(ps)[|ps| - 1];
      assert KeysOf(init) == KeysOf(ps)[..|ps| - 1];
      UpdateValue(m, init, p);
    }
  }

  /** The entries `get_feature_descriptions` writes, in order. */
  function DescriptionEntries(): seq<(string, string)>
  {
    DescribedBlock(TrendTemplates, WindowSizes) + DescribedBlock(BurstTemplates, WindowSizes)
      + LinkDescriptions + DescribedBlock(HistoryTemplates, WindowSizes)
      + [SlotsSinceDescription] + DescribedBlock(LagTemplates, LagPeriods)
  }

  /** The dictionary `get_feature_descriptions` returns. */
  function FeatureDescriptions(): map<string, string>
  {
    Update(map[], DescriptionEntries())
  }

  /** The names `get_feature_descriptions` describes, in the order it writes them. */
  function DescribedNames(): seq<string>
  {
    Block(Stems(TrendTemplates), WindowSizes) + Block(Stems(BurstTemplates), WindowSizes)
      + LinkFeatures + Block(HistoryStems, WindowSizes)
      + ["slots_since_last_congestion"] + Block(LagStems, LagPeriods)
  }

  lemma DescriptionKeys()
    ensures KeysOf(DescriptionEntries()) == DescribedNames()
  {
    DescribedBlockKeys(TrendTemplates, WindowSizes);
    DescribedBlockKeys(BurstTemplates, WindowSizes);
    DescribedBlockKeys(HistoryTemplates, WindowSizes);
    DescribedBlockKeys(LagTemplates, LagPeriods);
    assert Stems(HistoryTemplates) == HistoryStems;
    assert Stems(LagTemplates) == LagStems;
    assert KeysOf(LinkDescriptions) == LinkFeatures;
    var b1, b2, b3 := DescribedBlock(TrendTemplates, WindowSizes), DescribedBlock(BurstTemplates, WindowSizes),
      DescribedBlock(HistoryTemplates, WindowSizes);
    KeysOfAppend(b1, b2);
    KeysOfAppend(b1 + b2, LinkDescriptions);
    KeysOfAppend(b1 + b2 + LinkDescriptions, b3);
    KeysOfAppend(b1 + b2 + LinkDescriptions + b3, [SlotsSinceDescription]);
    KeysOfAppend(b1 + b2 + LinkDescriptions + b3 + [SlotsSinceDescription], DescribedBlock(LagTemplates, LagPeriods));
  }

  /** A name is in the rolling block exactly when it is in the trend block or the burstiness block. */
  lemma RollingSplit(x: string)
    ensures x in Block(RollingStems, WindowSizes) <==>
      x in Block(Stems(TrendTemplates), WindowSizes) || x in Block(Stems(BurstTemplates), WindowSizes)
  {
    BlockMembers(RollingStems, WindowSizes, x);
    BlockMembers(Stems(TrendTemplates), WindowSizes, x);
    BlockMembers(Stems(BurstTemplates), WindowSizes, x);
    assert Stems(TrendTemplates) == ["throughput_mean", "throughput_max", "throughput_slope"];
    assert Stems(BurstTemplates) == ["throughput_std", "throughput_var", "burstiness_coef"];
    assert RollingStems == Stems(TrendTemplates) + Stems(BurstTemplates);
  }

  /** No name is described twice. */
  lemma DescribedNamesDistinct()
    ensures Distinct(DescribedNames())
  {
    var t, u := Block(Stems(TrendTemplates), WindowSizes), Block(Stems(BurstTemplates), WindowSizes);
    var b2, b3 := Block(HistoryStems, WindowSizes), Block(LagStems, LagPeriods);
    BlocksApart();
    BlockDistinct(Stems(TrendTemplates), WindowSizes);
    BlockDistinct(Stems(BurstTemplates), WindowSizes);
    forall x | x in t ensures x !in u && x !in b2 && x !in b3 {
      BlocksDisjoint(Stems(TrendTemplates), WindowSizes, Stems(BurstTemplates), WindowSizes, x);
      RollingSplit(x);
    }
    forall x | x in u ensures x !in b2 && x !in b3 {
      RollingSplit(x);
    }
    forall p | p in LinkFeatures + ["slots_since_last_congestion"] ensures p !in t && p !in u && p !in b2 && p !in b3 {
      PlainNamesApart(p);
      RollingSplit(p);
    }
    DistinctSix(t, u, LinkFeatures, b2, ["slots_since_last_congestion"], b3);
  }

  /** The described names are the listed features but the raw throughput. */
  lemma DescribedNamesListed(x: string)
    ensures x in DescribedNames() <==> x in FeatureList() && x != "throughput"
  {
    var r, t, u := Block(RollingStems, WindowSizes), Block(Stems(TrendTemplates), WindowSizes),
      Block(Stems(BurstTemplates), WindowSizes);
    var b2, b3 := Block(HistoryStems, WindowSizes), Block(LagStems, LagPeriods);
    var plain := LinkFeatures + ["slots_since_last_congestion"];
    assert x in DescribedNames() <==> x in t || x in u || x in plain || x in b2 || x in b3;
    assert x in FeatureList() <==> x in r || x in plain || x in b2 || x in b3 || x == "throughput";
    RollingSplit(x);
    if x == "throughput" {
      PlainNamesApart(x);
      assert x !in plain;
    }
  }

  /** Every listed feature but the raw throughput has a description, and
      nothing else has one. */
  lemma DescribedFeatures(x: string)
    ensures x in FeatureDescriptions() <==> x in FeatureList() && x != "throughput"
  {
    UpdateKeys(map[], DescriptionEntries(), x);
    DescriptionKeys();
    DescribedNamesListed(x);
  }

  /** Each windowed or lagged feature is described by its template around its size. */
  lemma DescriptionOf(t: Template, n: nat)
    requires (t in TrendTemplates + BurstTemplates + HistoryTemplates && n in WindowSizes)
      || (t in LagTemplates && n in LagPeriods)
    ensures Named(t.stem, n) in FeatureDescriptions()
    ensures FeatureDescriptions()[Named(t.stem, n)] == Describe(t, n)
  {
    var e := (Named(t.stem, n), Describe(t, n));
    if t in TrendTemplates {
      DescribedBlockHas(TrendTemplates, WindowSizes, t, n);
    } else if t in BurstTemplates {
      DescribedBlockHas(BurstTemplates, WindowSizes, t, n);
    } else if t in HistoryTemplates {
      DescribedBlockHas(HistoryTemplates, WindowSizes, t, n);
    } else {
      DescribedBlockHas(LagTemplates, LagPeriods, t, n);
    }
    assert e in DescriptionEntries();
    DescriptionKeys();
    DescribedNamesDistinct();
    UpdateValue(map[], DescriptionEntries(), e);
  }

  /** The link features and the slots-since feature keep their fixed descriptions. */
  lemma PlainDescriptions(p: (string, string))
    requires p in LinkDescriptions + [SlotsSinceDescription]
    ensures p.0 in FeatureDescriptions() && FeatureDescriptions()[p.0] == p.1
  {
    assert p in DescriptionEntries();
    DescriptionKeys();
    DescribedNamesDistinct();
    UpdateValue(map[], DescriptionEntries(), p);
  }

  lemma UpdateTwo(m: map<string, string>, ps: seq<(string, string)>)
    requires |ps| == 2
    ensures Update(m, ps) == m[ps[0].0 := ps[0].1][ps[1].0 := ps[1].1]
  {
    var first := ps[..1];
    assert first[..0] == [] && first[0] == ps[0];
    assert Update(m, first) == m[ps[0].0 := ps[0].1];
  }

  lemma UpdateThree(m: map<string, string>, ps: seq<(string, string)>)
    requires |ps| == 3
    ensures Update(m, ps) == m[ps[0].0 := ps[0].1][ps[1].0 := ps[1].1][ps[2].0 := ps[2].1]
  {
    UpdateTwo(m, ps[..2]);
  }

  lemma UpdateFour(m: map<string, string>, ps: seq<(string, string)>)
    requires |ps| == 4
    ensures Update(m, ps) == m[ps[0].0 := ps[0].1][ps[1].0 := ps[1].1][ps[2].0 := ps[2].1][ps[3].0 := ps[3].1]
  {
    UpdateThree(m, ps[..3]);
  }

  /** One more size adds its entries after those of the sizes before it. */
  lemma DescribedBlockStep(m: map<string, string>, ts: seq<Template>, ns: seq<nat>, i: nat)
    requires i < |ns|
    ensures Update(m, DescribedBlock(ts, ns[..i + 1])) == Update(Update(m, DescribedBlock(ts, ns[..i])), Entries(ts, ns[i]))
  {
    assert ns[..i + 1][..i] == ns[..i];
    UpdateAppend(m, DescribedBlock(ts, ns[..i]), Entries(ts, ns[i]));
  }

  /** Writing the entries in order is writing each part in turn. */
  lemma DescriptionsInOrder()
    ensures FeatureDescriptions() ==
      Update(Update(Update(Update(Update(Update(map[],
        DescribedBlock(TrendTemplates, WindowSizes)), DescribedBlock(BurstTemplates, WindowSizes)),
        LinkDescriptions), DescribedBlock(HistoryTemplates, WindowSizes)),
        [SlotsSinceDescription]), DescribedBlock(LagTemplates, LagPeriods))
  {
    var a, b, c := DescribedBlock(TrendTemplates, WindowSizes), DescribedBlock(BurstTemplates, WindowSizes),
      DescribedBlock(HistoryTemplates, WindowSizes);
    var d := DescribedBlock(LagTemplates, LagPeriods);
    var e: map<string, string> := map[];
    UpdateAppend(e, a + b + LinkDescriptions + c + [SlotsSinceDescription], d);
    UpdateAppend(e, a + b + LinkDescriptions + c, [SlotsSinceDescription]);
    UpdateAppend(e, a + b + LinkDescriptions, c);
    UpdateAppend(e, a + b, LinkDescriptions);
    UpdateAppend(e, a, b);
  }

  /** `get_feature_descriptions`: the windowed descriptions, the link ones,
      the congestion-history ones and the slots-since one, then the lag
      ones, each written into the dictionary in turn. */
  method GetFeatureDescriptions() returns (descriptions: map<string, string>)
    ensures descriptions == FeatureDescriptions()
  {
    descriptions := AddTrendDescriptions(map[]);
    descriptions := AddBurstDescriptions(descriptions);
    ghost var m2 := descriptions;
    descriptions := descriptions[LinkDescriptions[0].0 := LinkDescriptions[0].1];
    descriptions := descriptions[LinkDescriptions[1].0 := LinkDescriptions[1].1];
    descriptions := descriptions[LinkDescriptions[2].0 := LinkDescriptions[2].1];
    descriptions := descriptions[LinkDescriptions[3].0 := LinkDescriptions[3].1];
    UpdateFour(m2, LinkDescriptions);
    descriptions := AddHistoryDescriptions(descriptions);
    ghost var m4 := descriptions;
    descriptions := descriptions[SlotsSinceDescription.0 := SlotsSinceDescription.1];
    assert descriptions == Update(m4, [SlotsSinceDescription]);
    descriptions := AddLagDescriptions(descriptions);
    DescriptionsInOrder();
  }

  /** The loop writing the mean, max and slope descriptions of each window. */
  method AddTrendDescriptions(d: map<string, string>) returns (descriptions: map<string, string>)
    ensures descriptions == Update(d, DescribedBlock(TrendTemplates, WindowSizes))
  {
    descriptions := d;
    for i := 0 to |WindowSizes|
      invariant descriptions == Update(d, DescribedBlock(TrendTemplates, WindowSizes[..i]))
    {
      var window := WindowSizes[i];
      ghost var before := descriptions;
      descriptions := descriptions[Named(MeanTemplate.stem, window) := Describe(MeanTemplate, window)];
      descriptions := descriptions[Named(MaxTemplate.stem, window) := Describe(MaxTemplate, window)];
      descriptions := descriptions[Named(SlopeTemplate.stem, window) := Describe(SlopeTemplate, window)];
      UpdateThree(before, Entries(TrendTemplates, window));
      DescribedBlockStep(d, TrendTemplates, WindowSizes, i);
    }
    assert WindowSizes[..|WindowSizes|] == WindowSizes;
  }

  /** The loop writing the std, var and burstiness descriptions of each window. */
  method AddBurstDescriptions(d: map<string, string>) returns (descriptions: map<string, string>)
    ensures descriptions == Update(d, DescribedBlock(BurstTemplates, WindowSizes))
  {
    descriptions := d;
    for i := 0 to |WindowSizes|
      invariant descriptions == Update(d, DescribedBlock(BurstTemplates, WindowSizes[..i]))
    {
      var window := WindowSizes[i];
      ghost var before := descriptions;
      descriptions := descriptions[Named(StdTemplate.stem, window) := Describe(StdTemplate, window)];
      descriptions := descriptions[Named(VarTemplate.stem, window) := Describe(VarTemplate, window)];
      descriptions := descriptions[Named(BurstinessTemplate.stem, window) := Describe(BurstinessTemplate, window)];
      UpdateThree(before, Entries(BurstTemplates, window));
      DescribedBlockStep(d, BurstTemplates, WindowSizes, i);
    }
    assert WindowSizes[..|WindowSizes|] == WindowSizes;
  }

  /** The loop writing the congestion frequency and count descriptions of each window. */
  method AddHistoryDescriptions(d: map<string, string>) returns (descriptions: map<string, string>)
    ensures descriptions == Update(d, DescribedBlock(HistoryTemplates, WindowSizes))
  {
    descriptions := d;
    for i := 0 to |WindowSizes|
      invariant descriptions == Update(d, DescribedBlock(HistoryTemplates, WindowSizes[..i]))
    {
      var window := WindowSizes[i];
      ghost var before := descriptions;
      descriptions := descriptions[Named(FreqTemplate.stem, window) := Describe(FreqTemplate, window)];
      descriptions := descriptions[Named(CountTemplate.stem, window) := Describe(CountTemplate, window)];
      UpdateTwo(before, Entries(HistoryTemplates, window));
      DescribedBlockStep(d, HistoryTemplates, WindowSizes, i);
    }
    assert WindowSizes[..|WindowSizes|] == WindowSizes;
  }

  /** The loop writing the lag, diff, pct-change and loss-lag descriptions of each lag. */
  method AddLagDescriptions(d: map<string, string>) returns (descriptions: map<string, string>)
    ensures descriptions == Update(d, DescribedBlock(LagTemplates, LagPeriods))
  {
    descriptions := d;
    var lags: seq<nat> := [1, 2, 3, 5, 10];
    for i := 0 to |lags|
      invariant descriptions == Update(d, DescribedBlock(LagTemplates, lags[..i]))
    {
      var lag := lags[i];
      ghost var before := descriptions;
      descriptions := descriptions[Named(LagTemplate.stem, lag) := Describe(LagTemplate, lag)];
      descriptions := descriptions[Named(DiffTemplate.stem, lag) := Describe(DiffTemplate, lag)];
      descriptions := descriptions[Named(PctChangeTemplate.stem, lag) := Describe(PctChangeTemplate, lag)];
      descriptions := descriptions[Named(LossLagTemplate.stem, lag) := Describe(LossLagTemplate, lag)];
      UpdateFour(before, Entries(LagTemplates, lag));
      DescribedBlockStep(d, LagTemplates, lags, i);
    }
    assert lags[..|lags|] == lags == LagPeriods;
  }
}
