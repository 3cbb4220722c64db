/**
 * The histogram core of `process_image` in main.py: unique colours, the
 * share of every colour in all pixels (there is no white suppression), the
 * filter on the raw pixel count and the ranking by count; then the table
 * rows and the result view.
 */
module MainHistogram {
  import opened Wrappers
  import opened Colour
  import opened Aggregate
  import opened HexCode
  import opened Text
  import opened Ranking
  import opened Export

  /** `total_pixels = h * w`. */
  function TotalPixels(img: Image): nat {
    img.height * img.width
  }

  /**
   * The unique-colour table of the image: its counts sum to `h * w`, its
   * colours are pairwise distinct, and they are exactly the image's colours.
   */
  lemma Conservation(img: Image)
    requires WellFormed(img)
    ensures SumCounts(UniqueCounts(Pixels(img))) == TotalPixels(img)
    ensures StrictlyIncreasing(UniqueCounts(Pixels(img))) && Positive(UniqueCounts(Pixels(img)))
    ensures UniqueCounts(Pixels(img)) == [] <==> TotalPixels(img) == 0
    ensures ColorSet(UniqueCounts(Pixels(img))) == set c | c in Pixels(img)
  {
    FlattenLength(img);
    UniqueCountsCorrect(Pixels(img));
    SumPositive(UniqueCounts(Pixels(img)));
  }

  /** The DataFrame once `Count`, `Percentage` and `Hex` are attached (before the filter). */
  function Records(img: Image): (recs: seq<ColorRecord>)
    requires WellFormed(img)
    ensures UniqueCounts(Pixels(img)) == [] || TotalPixels(img) > 0
    ensures recs == MakeRecords(UniqueCounts(Pixels(img)), TotalPixels(img))
  {
    Conservation(img);
    MakeRecords(UniqueCounts(Pixels(img)), TotalPixels(img))
  }

  /** The filter `df['Count'] >= threshold`: on the raw count, not the percentage. */
  function AtLeastCount(threshold: int): ColorRecord -> bool {
    (rec: ColorRecord) => rec.count >= threshold
  }

  /** `filtered_df`: the records that pass the count filter, ranked by count. */
  function Analyze(img: Image, threshold: int): seq<ColorRecord>
    requires WellFormed(img)
  {
    Rank(Records(img), AtLeastCount(threshold))
  }

  /**
   * With all pixels as the denominator, the record colours are distinct and
   * their exact shares sum to 100 for any image with at least one pixel.
   */
  lemma RecordsSumTo100(img: Image)
    requires WellFormed(img)
    ensures DistinctColors(Records(img))
    ensures TotalPixels(img) > 0 ==> SumPercent(Records(img)) == 100.0
  {
    Conservation(img);
    if TotalPixels(img) > 0 {
      PercentagesSumTo100(UniqueCounts(Pixels(img)), TotalPixels(img));
    }
  }

  /**
   * Every record is a colour of the image with its exact pixel count, its
   * exact share of all pixels, a share in (0, 100], and its canonical hex
   * label.
   */
  lemma RecordsExact(img: Image)
    requires WellFormed(img)
    ensures forall x :: x in Records(img) ==>
      && x.color in Pixels(img) && TotalPixels(img) > 0
      && x.count == Occurrences(Pixels(img), x.color) > 0
      && x.percentage == Percent(x.count, TotalPixels(img))
      && 0.0 < x.percentage <= 100.0
      && x.hex == HexOf(x.color)
  {
    var rows := UniqueCounts(Pixels(img));
    var recs := Records(img);
    Conservation(img);
    forall x | x in recs
      ensures x.color in Pixels(img) && TotalPixels(img) > 0
      ensures x.count == Occurrences(Pixels(img), x.color) > 0
      ensures x.percentage == Percent(x.count, TotalPixels(img)) && 0.0 < x.percentage <= 100.0
      ensures x.hex == HexOf(x.color)
    {
      var i :| 0 <= i < |recs| && recs[i] == x;
      UniqueCountsExact(Pixels(img), i);
      PercentagesWithin(rows, TotalPixels(img), i);
    }
  }

  /**
   * The whole pipeline of main.py: the result holds exactly the records
   * whose raw count reaches the threshold, each with its exact count, its
   * exact share of all pixels and its canonical hex label; colours are
   * distinct and ranked by count, largest first.
   */
  lemma AnalyzeExact(img: Image, threshold: int)
    requires WellFormed(img)
    ensures NonIncreasing(Analyze(img, threshold))
    ensures DistinctColors(Analyze(img, threshold))
    ensures forall x :: x in Analyze(img, threshold) <==> x in Records(img) && x.count >= threshold
    ensures forall x :: x in Analyze(img, threshold) ==>
      && x.color in Pixels(img) && TotalPixels(img) > 0
      && x.count == Occurrences(Pixels(img), x.color)
      && x.count >= threshold && x.count > 0
      && x.percentage == Percent(x.count, TotalPixels(img))
      && 0.0 < x.percentage <= 100.0
      && x.hex == HexOf(x.color)
  {
    RecordsSumTo100(img);
    RecordsExact(img);
    RankCorrect(Records(img), AtLeastCount(threshold));
  }

  /** Every colour of the image with at least `threshold` pixels is in the result. */
  lemma AnalyzeComplete(img: Image, threshold: int, c: Rgb)
    requires WellFormed(img)
    requires c in Pixels(img) && Occurrences(Pixels(img), c) >= threshold
    ensures exists j :: 0 <= j < |Analyze(img, threshold)| && Analyze(img, threshold)[j].color == c
  {
    var rows := UniqueCounts(Pixels(img));
    var recs := Records(img);
    var result := Analyze(img, threshold);
    Conservation(img);
    assert c in ColorSet(rows);
    var i :| 0 <= i < |rows| && rows[i].color == c;
    UniqueCountsExact(Pixels(img), i);
    assert recs[i] in recs;
    RankCorrect(recs, AtLeastCount(threshold));
    assert recs[i] in result;
    var j :| 0 <= j < |result| && result[j] == recs[i];
  }

  /** One row of the colour table of main.py (the sample and button HTML are not modelled). */
  datatype TableRow = TableRow(hex: string, rgb: string, count: nat, percentage: real)

  /** The table row of a record. */
  function RenderRow(rec: ColorRecord): TableRow {
    TableRow(rec.hex, RgbLabel(rec.color), rec.count, rec.percentage)
  }

  /**
   * The result area of main.py as evidently intended: the "no colours"
   * message when nothing passes the filter, else the table and the chart.
   */
  function ResultArea(img: Image, threshold: int): View<TableRow>
    requires WellFormed(img)
  {
    Present(Analyze(img, threshold), RenderRow)
  }

  /**
   * `process_image` of main.py as written. The `Hex` column is attached with
   * a row-wise `df.apply`; on a frame with no rows, which only an image
   * without pixels gives, that assignment raises `ValueError` (the lambda's
   * `int(nan)` fails on pandas' probe row, `apply` returns the whole frame,
   * and a five-column frame cannot be assigned to one column).
   */
  function ProcessAsWritten(img: Image, threshold: int): (out: Outcome<TableRow>)
    requires WellFormed(img)
    ensures out.Raised? <==> TotalPixels(img) == 0
    ensures out.Displayed? ==> out.area == ResultArea(img, threshold)
  {
    Conservation(img);
    if Records(img) == [] then Raised else Displayed(ResultArea(img, threshold))
  }

  /**
   * A threshold above every colour's count empties the ranking. As intended
   * this shows the "no colours" message; as written it does so for every
   * image with a pixel, and an image without pixels raises instead.
   */
  lemma NothingQualifiesShowsNoColours(img: Image, threshold: int)
    requires WellFormed(img)
    requires forall c :: c in Pixels(img) ==> Occurrences(Pixels(img), c) < threshold
    ensures Analyze(img, threshold) == []
    ensures ResultArea(img, threshold).NoColours?
    ensures TotalPixels(img) > 0 ==> ProcessAsWritten(img, threshold) == Displayed(NoColours)
    ensures TotalPixels(img) == 0 ==> ProcessAsWritten(img, threshold) == Raised
  {
    AnalyzeExact(img, threshold);
  }

  /** An image without pixels raises as written, where the intended result is the "no colours" message. */
  lemma EmptyImageRaises(threshold: int)
    ensures ProcessAsWritten(Image(0, 0, []), threshold) == Raised
    ensures ResultArea(Image(0, 0, []), threshold).NoColours?
  {
    NothingQualifiesShowsNoColours(Image(0, 0, []), threshold);
  }

  /** Each row's `Hex` and `RGB` cells read back to the colour of the record it shows. */
  lemma TableRowsCorrect(img: Image, threshold: int)
    requires WellFormed(img)
    requires ResultArea(img, threshold).Shown?
    ensures forall i :: 0 <= i < |ResultArea(img, threshold).table| ==>
      && ParseHex(ResultArea(img, threshold).table[i].hex) == Some(Analyze(img, threshold)[i].color)
      && ParseRgbLabel(ResultArea(img, threshold).table[i].rgb) == Some(Analyze(img, threshold)[i].color)
  {
    var result := Analyze(img, threshold);
    var v := ResultArea(img, threshold);
    AnalyzeExact(img, threshold);
    forall i | 0 <= i < |v.table|
      ensures ParseHex(v.table[i].hex) == Some(result[i].color)
      ensures ParseRgbLabel(v.table[i].rgb) == Some(result[i].color)
    {
      assert result[i] in result;
      HexRoundTrip(result[i].color);
      RgbLabelRoundTrip(result[i].color);
    }
  }
}
