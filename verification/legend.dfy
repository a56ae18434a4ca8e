/**
 * The legend of a colour scale: one row per stop, from the highest bucket to
 * the lowest, each labelled with the stop's extent, then a fixed "No data" row.
 */
module Legend {
  import opened Options
  import opened Colours
  import opened Quantize

  /**
   * A row's text, kept as numbers: `<hi%` when the extent starts at 0,
   * `lo-hi%` otherwise, and the literal "No data".
   */
  datatype Label = Below(hi: real) | Between(lo: real, hi: real) | NoData

  datatype Entry = Entry(colour: Colour, text: Label)

  /** The label of stop `c`, from its extent. */
  function StopLabel(sc: Scale, c: Colour): (l: Label)
    requires c in sc.range
    ensures !l.NoData?
  {
    var extent := InvertExtent(sc, c).value;
    if extent.0 == 0.0 then Below(extent.1) else Between(extent.0, extent.1)
  }

  /** `legend` is the legend of `sc`. */
  predicate IsLegendOf(sc: Scale, legend: seq<Entry>) {
    var n := |sc.range|;
    && |legend| == n + 1
    && (forall k :: 0 <= k < n ==>
          legend[k] == Entry(sc.range[n - 1 - k], StopLabel(sc, sc.range[n - 1 - k])))
    && legend[n] == Entry(NoDataColour, NoData)
  }

  /** Walks the stops from last to first, then appends the "No data" row. */
  method BuildLegend(sc: Scale) returns (legend: seq<Entry>)
    ensures IsLegendOf(sc, legend)
  {
    var n := |sc.range|;
    legend := [];
    var i := n - 1;
    while i >= 0
      invariant -1 <= i < n
      invariant |legend| == n - 1 - i
      invariant forall k :: 0 <= k < |legend| ==>
        legend[k] == Entry(sc.range[n - 1 - k], StopLabel(sc, sc.range[n - 1 - k]))
    {
      legend := legend + [Entry(sc.range[i], StopLabel(sc, sc.range[i]))];
      i := i - 1;
    }
    legend := legend + [Entry(NoDataColour, NoData)];
  }

  /**
   * A stop is labelled `<hi%` exactly when its extent starts at 0: when the
   * domain is empty, or when the stop is the first one.
   */
  lemma StopLabelBelowIff(sc: Scale, c: Colour)
    requires Valid(sc) && c in sc.range
    ensures StopLabel(sc, c).Below? <==> sc.max == 0.0 || c == sc.range[0]
  {
    var i := IndexOf(sc.range, c).value;
    BucketsTileDomain(sc, i);
  }

  /** With distinct stops, stop `i` is labelled with bucket `i`'s bounds. */
  lemma StopLabelOfStop(sc: Scale, i: nat)
    requires Valid(sc) && Distinct(sc.range) && i < |sc.range|
    ensures StopLabel(sc, sc.range[i]) ==
      if i == 0 || sc.max == 0.0 then Below(Hi(sc, i)) else Between(Lo(sc, i), Hi(sc, i))
  {
    ExtentOfStop(sc, i);
    BucketsTileDomain(sc, i);
  }

  /**
   * With distinct stops and a non-empty domain, only the last row before
   * "No data" (the first stop) has the `<hi%` form.
   */
  lemma LegendBelowOnlyForFirstStop(sc: Scale, legend: seq<Entry>, k: nat)
    requires Valid(sc) && sc.max > 0.0 && Distinct(sc.range)
    requires IsLegendOf(sc, legend) && k < |sc.range|
    ensures legend[k].text.Below? <==> k == |sc.range| - 1
  {
    StopLabelOfStop(sc, |sc.range| - 1 - k);
  }

  /**
   * With distinct stops, the rows' ranges run down from `max` to 0 without
   * gaps: the top row ends at `max`, each row starts where the one below it
   * ends, and the lowest stop's row ends at one bucket width.
   */
  lemma LegendRangesTileDomain(sc: Scale, legend: seq<Entry>, k: nat)
    requires Valid(sc) && sc.max > 0.0 && Distinct(sc.range)
    requires IsLegendOf(sc, legend) && k + 1 < |sc.range|
    ensures legend[0].text.hi == sc.max
    ensures legend[k].text.Between? && legend[k].text.lo == legend[k + 1].text.hi
    ensures legend[|sc.range| - 1].text == Below(sc.max / (|sc.range| as real))
  {
    var n := |sc.range|;
    StopLabelOfStop(sc, n - 1);
    StopLabelOfStop(sc, n - 1 - k);
    StopLabelOfStop(sc, n - 2 - k);
    StopLabelOfStop(sc, 0);
    BucketsTileDomain(sc, n - 2 - k);
  }

  /** With an empty domain every stop row reads `<0%`. */
  lemma EmptyDomainLegend(sc: Scale, legend: seq<Entry>, k: nat)
    requires sc.max == 0.0 && IsLegendOf(sc, legend) && k < |sc.range|
    ensures legend[k].text == Below(0.0)
  {
  }
}
