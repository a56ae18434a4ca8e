/**
 * The party-results pipeline: find the largest percentage, pick the party's
 * colour scale, build the quantize scale and its legend, and turn every result
 * record into a paint instruction for its constituency.
 */
module Choropleth {
  import opened Options
  import opened Colours
  import Slug
  import opened Parties
  import opened Quantize
  import opened Legend

  /** One constituency's result for the selected party. */
  datatype Record = Record(name: string, percentage: real)

  /** Fill the region whose class is `key` with `colour`. */
  datatype Paint = Paint(key: string, colour: Colour)

  datatype Rendering = Rendering(scale: Scale, legend: seq<Entry>, paints: seq<Paint>)

  /** `m` is the largest of 0 and the records' percentages. */
  predicate IsMaxPercentage(records: seq<Record>, m: real) {
    && m >= 0.0
    && (forall i :: 0 <= i < |records| ==> records[i].percentage <= m)
    && (m == 0.0 || exists i :: 0 <= i < |records| && records[i].percentage == m)
  }

  /** Scans the records for the largest percentage, starting from 0. */
  method MaxPercentage(records: seq<Record>) returns (m: real)
    ensures IsMaxPercentage(records, m)
  {
    m := 0.0;
    for i := 0 to |records|
      invariant IsMaxPercentage(records[..i], m)
    {
      if records[i].percentage > m {
        m := records[i].percentage;
      }
    }
    assert records[..|records|] == records;
  }

  /** The fill for a percentage: the no-data colour for exactly 0, else the scale's colour. */
  function FillColour(sc: Scale, v: real): (c: Colour)
    requires Valid(sc)
    ensures c == NoDataColour || c in sc.range
  {
    if v == 0.0 then NoDataColour else Apply(sc, v)
  }

  /** One paint instruction per record, in record order. */
  function Bind(records: seq<Record>, sc: Scale): (paints: seq<Paint>)
    requires Valid(sc)
    ensures |paints| == |records|
    ensures forall i :: 0 <= i < |records| ==>
      paints[i] == Paint(Slug.Slugify(records[i].name), FillColour(sc, records[i].percentage))
  {
    seq(|records|, i requires 0 <= i < |records| =>
      Paint(Slug.Slugify(records[i].name), FillColour(sc, records[i].percentage)))
  }

  /**
   * The whole pipeline for the party with slug `slug`; `None` when no party
   * has that slug.
   */
  method PartyResults(parties: seq<Party>, slug: string, records: seq<Record>)
    returns (r: Option<Rendering>)
    requires forall k :: 0 <= k < |parties| ==> |parties[k].scale| > 0
    ensures r.None? <==> forall k :: 0 <= k < |parties| ==> parties[k].slug != slug
    ensures r.Some? ==>
      && (exists k :: IsLastMatch(parties, slug, k) && r.value.scale.range == parties[k].scale)
      && IsMaxPercentage(records, r.value.scale.max)
      && IsLegendOf(r.value.scale, r.value.legend)
      && Valid(r.value.scale)
      && r.value.paints == Bind(records, r.value.scale)
  {
    var maxValue := MaxPercentage(records);
    var range := FindScale(parties, slug);
    if range.None? {
      return None;
    }
    var sc := Scale(maxValue, range.value);
    var legend := BuildLegend(sc);
    r := Some(Rendering(sc, legend, Bind(records, sc)));
  }

  // ---------------------------------------------------------------------------
  // Properties of the paint instructions
  // ---------------------------------------------------------------------------

  /** Every key is a slug: lower-case letters, digits, `_` and single inner hyphens. */
  lemma PaintKeysAreSlugs(records: seq<Record>, sc: Scale, i: nat)
    requires Valid(sc) && i < |records|
    ensures Slug.IsSlug(Bind(records, sc)[i].key)
  {
    Slug.SlugifyIsSlug(records[i].name);
  }

  /**
   * A record is painted with the no-data colour exactly when its percentage
   * is 0, as long as no stop of the scale is that colour.
   */
  lemma NoDataIffZero(records: seq<Record>, sc: Scale, i: nat)
    requires Valid(sc) && NoDataColour !in sc.range && i < |records|
    ensures Bind(records, sc)[i].colour == NoDataColour <==> records[i].percentage == 0.0
  {
  }

  /**
   * A record with a non-zero percentage gets a stop of the scale. On a scale
   * built from the records, a percentage equal to the maximum gets the last
   * stop, and with distinct stops a percentage in (0, max) gets the stop whose
   * extent contains it.
   */
  lemma PaintColourIsStop(records: seq<Record>, sc: Scale, i: nat)
    requires Valid(sc) && IsMaxPercentage(records, sc.max) && i < |records|
    requires records[i].percentage != 0.0
    ensures Bind(records, sc)[i].colour in sc.range
    ensures records[i].percentage == sc.max ==>
      Bind(records, sc)[i].colour == sc.range[|sc.range| - 1]
    ensures Distinct(sc.range) && 0.0 < records[i].percentage < sc.max ==>
      var extent := InvertExtent(sc, Bind(records, sc)[i].colour).value;
      extent.0 <= records[i].percentage < extent.1
  {
    var v := records[i].percentage;
    if v == sc.max {
      BucketEnds(sc, v);
    }
    if Distinct(sc.range) && 0.0 < v < sc.max {
      ApplyIffInExtent(sc, Apply(sc, v), v);
    }
  }
}
