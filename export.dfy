/**
 * What both apps do with the ranked records: the table (all records), the
 * bar chart (`filtered_df.head(20)`) and the "no colours found" branch taken
 * when `filtered_df.empty`.
 */
module Export {
  import opened Ranking

  /** The bar chart shows at most this many colours. */
  const ChartCap: nat := 20

  /** `filtered_df.head(20)`. */
  function Chart(ranked: seq<ColorRecord>): (bars: seq<ColorRecord>)
    ensures |bars| == if |ranked| < ChartCap then |ranked| else ChartCap
    ensures bars == ranked[..|bars|]
  {
    if |ranked| < ChartCap then ranked else ranked[..ChartCap]
  }

  /**
   * On a ranking ordered by count, the chart shows the most frequent
   * colours: no colour left off the chart has more pixels than one on it.
   */
  lemma ChartShowsLargest(ranked: seq<ColorRecord>, i: nat, j: nat)
    requires NonIncreasing(ranked)
    requires i < |Chart(ranked)| <= j < |ranked|
    ensures Chart(ranked)[i].count >= ranked[j].count
  {
    assert Chart(ranked)[i] == ranked[i];
  }

  /** The result area: a message when nothing qualifies, else a table and a chart. */
  datatype View<Row> = NoColours | Shown(table: seq<Row>, chart: seq<ColorRecord>)

  /** One table row per ranked record, in rank order. */
  function MapRows<Row>(ranked: seq<ColorRecord>, render: ColorRecord -> Row): (rows: seq<Row>)
    ensures |rows| == |ranked|
    ensures forall i :: 0 <= i < |ranked| ==> rows[i] == render(ranked[i])
  {
    if ranked == [] then [] else [render(ranked[0])] + MapRows(ranked[1..], render)
  }

  /**
   * The `if filtered_df.empty` branch, and otherwise the table of every
   * ranked record in rank order and the chart of the first (at most 20) of them.
   */
  function Present<Row>(ranked: seq<ColorRecord>, render: ColorRecord -> Row): (v: View<Row>)
    ensures v.NoColours? <==> ranked == []
    ensures v.Shown? ==> |v.table| == |ranked| && 1 <= |v.chart| <= ChartCap
    ensures v.Shown? ==> forall i :: 0 <= i < |ranked| ==> v.table[i] == render(ranked[i])
    ensures v.Shown? ==> |v.chart| == (if |ranked| < ChartCap then |ranked| else ChartCap)
    ensures v.Shown? ==> v.chart == ranked[..|v.chart|]
  {
    if ranked == [] then NoColours else Shown(MapRows(ranked, render), Chart(ranked))
  }

  /**
   * What a run of `process_image` ends in: an exception that nothing catches,
   * or the result area.
   */
  datatype Outcome<Row> = Raised | Displayed(area: View<Row>)
}
