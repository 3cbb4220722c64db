/**
 * The histogram core of `process_image` in app.py: unique colours, white
 * suppression, percentages of the non-white pixels, the percentage filter
 * and the ranking by count; then the table rows and the result view.
 */
module AppHistogram {
  import opened Wrappers
  import opened Colour
  import opened Aggregate
  import opened HexCode
  import opened Text
  import opened Ranking
  import opened Export

  /** `df[mask_not_white]` with its counts. */
  function NonWhiteRows(rows: seq<ColorCount>, threshold: int): (kept: seq<ColorCount>)
    ensures forall x :: x in kept <==> x in rows && !IsWhite(x.color, threshold)
  {
    if rows == [] then []
    else if IsWhite(rows[0].color, threshold) then NonWhiteRows(rows[1..], threshold)
    else [rows[0]] + NonWhiteRows(rows[1..], threshold)
  }

  /** The rows the mask removes; their counts are `counts_filtered`. */
  function WhiteRows(rows: seq<ColorCount>, threshold: int): (removed: seq<ColorCount>)
    ensures forall x :: x in removed <==> x in rows && IsWhite(x.color, threshold)
  {
    if rows == [] then []
    else if IsWhite(rows[0].color, threshold) then [rows[0]] + WhiteRows(rows[1..], threshold)
    else WhiteRows(rows[1..], threshold)
  }

  /** White and non-white rows partition the pixel total. */
  lemma {:induction false} WhitePartition(rows: seq<ColorCount>, threshold: int)
    ensures SumCounts(NonWhiteRows(rows, threshold)) + SumCounts(WhiteRows(rows, threshold))
         == SumCounts(rows)
  {
    if rows != [] {
      WhitePartition(rows[1..], threshold);
    }
  }

  /** Suppression keeps every surviving count, so they stay positive. */
  lemma NonWhitePositive(rows: seq<ColorCount>, threshold: int)
    requires Positive(rows)
    ensures Positive(NonWhiteRows(rows, threshold))
  {
    var kept := NonWhiteRows(rows, threshold);
    forall i | 0 <= i < |kept| ensures kept[i].count > 0 {
      assert kept[i] in rows;
    }
  }

  /** Suppression keeps the surviving rows in colour order. */
  lemma {:induction false} NonWhiteIncreasing(rows: seq<ColorCount>, threshold: int)
    requires StrictlyIncreasing(rows)
    ensures StrictlyIncreasing(NonWhiteRows(rows, threshold))
  {
    if rows != [] {
      IncreasingTail(rows);
      NonWhiteIncreasing(rows[1..], threshold);
      if !IsWhite(rows[0].color, threshold) {
        var rest := NonWhiteRows(rows[1..], threshold);
        forall y | y in ColorSet(rest) ensures LexLess(rows[0].color, y) {
          var k :| 0 <= k < |rest| && rest[k].color == y;
          assert rest[k] in rows[1..];
          var m :| 0 <= m < |rows[1..]| && rows[1..][m] == rest[k];
          assert y in ColorSet(rows[1..]);
        }
        IncreasingCons(rows[0], rest);
      }
    }
  }

  /** Suppression keeps the surviving rows in order with their counts unchanged. */
  lemma NonWhiteOrdered(rows: seq<ColorCount>, threshold: int)
    requires StrictlyIncreasing(rows) && Positive(rows)
    ensures StrictlyIncreasing(NonWhiteRows(rows, threshold))
    ensures Positive(NonWhiteRows(rows, threshold))
  {
    NonWhitePositive(rows, threshold);
    NonWhiteIncreasing(rows, threshold);
  }

  lemma {:induction false} NonWhiteAddPixel(rows: seq<ColorCount>, c: Rgb, threshold: int)
    ensures SumCounts(NonWhiteRows(AddPixel(rows, c), threshold))
         == SumCounts(NonWhiteRows(rows, threshold)) + (if IsWhite(c, threshold) then 0 else 1)
  {
    if rows == [] {
    } else if rows[0].color == c {
      assert AddPixel(rows, c)[1..] == rows[1..];
    } else if LexLess(c, rows[0].color) {
      assert AddPixel(rows, c)[1..] == rows;
    } else {
      NonWhiteAddPixel(rows[1..], c, threshold);
      assert AddPixel(rows, c)[1..] == AddPixel(rows[1..], c);
    }
  }

  /** The surviving counts add up to the number of non-white pixels. */
  lemma {:induction false} NonWhiteCountsPixels(p: seq<Rgb>, threshold: int)
    ensures SumCounts(NonWhiteRows(UniqueCounts(p), threshold)) == |NonWhitePixels(p, threshold)|
  {
    if p != [] {
      var init, last := p[..|p| - 1], p[|p| - 1];
      NonWhiteCountsPixels(init, threshold);
      NonWhiteAddPixel(UniqueCounts(init), last, threshold);
    }
  }

  /** The number of non-white pixels of the image. */
  function NonWhiteTotal(img: Image, threshold: int): nat {
    |NonWhitePixels(Pixels(img), threshold)|
  }

  /** The unique-colour rows that survive the white mask. */
  function Survivors(img: Image, threshold: int): seq<ColorCount> {
    NonWhiteRows(UniqueCounts(Pixels(img)), threshold)
  }

  /** `total_pixels - sum(counts_filtered)`. */
  function Denominator(img: Image, threshold: int): int {
    img.height * img.width - SumCounts(WhiteRows(UniqueCounts(Pixels(img)), threshold))
  }

  /**
   * The denominator is the sum of the surviving counts, which is the number
   * of non-white pixels of the image; the survivors are ordered, positive,
   * and empty exactly when no pixel is non-white.
   */
  lemma DenominatorIsSurvivors(img: Image, threshold: int)
    requires WellFormed(img)
    ensures Denominator(img, threshold) == SumCounts(Survivors(img, threshold)) == NonWhiteTotal(img, threshold)
    ensures StrictlyIncreasing(Survivors(img, threshold)) && Positive(Survivors(img, threshold))
    ensures Survivors(img, threshold) == [] <==> NonWhiteTotal(img, threshold) == 0
  {
    var p := Pixels(img);
    FlattenLength(img);
    UniqueCountsCorrect(p);
    WhitePartition(UniqueCounts(p), threshold);
    NonWhiteCountsPixels(p, threshold);
    NonWhiteOrdered(UniqueCounts(p), threshold);
    SumPositive(Survivors(img, threshold));
  }

  /** The DataFrame once `Count`, `Percentage` and `Hex` are attached (before the filter). */
  function Records(img: Image, threshold: int): (recs: seq<ColorRecord>)
    requires WellFormed(img)
    ensures Survivors(img, threshold) == [] || NonWhiteTotal(img, threshold) > 0
    ensures recs == MakeRecords(Survivors(img, threshold), NonWhiteTotal(img, threshold))
  {
    DenominatorIsSurvivors(img, threshold);
    MakeRecords(Survivors(img, threshold), Denominator(img, threshold))
  }

  /** The filter `df['Percentage'] >= pct_threshold`. */
  function AtLeastPercent(pctThreshold: real): ColorRecord -> bool {
    (rec: ColorRecord) => rec.percentage >= pctThreshold
  }

  /** `filtered_df`: the records that pass the percentage filter, ranked by count. */
  function Analyze(img: Image, pctThreshold: real, whiteThreshold: int): seq<ColorRecord>
    requires WellFormed(img)
  {
    Rank(Records(img, whiteThreshold), AtLeastPercent(pctThreshold))
  }

  /**
   * Before the filter, the record colours are distinct and their exact
   * shares of the non-white pixels sum to 100 whenever any colour survives.
   */
  lemma RecordsSumTo100(img: Image, threshold: int)
    requires WellFormed(img)
    ensures DistinctColors(Records(img, threshold))
    ensures Records(img, threshold) != [] ==> SumPercent(Records(img, threshold)) == 100.0
  {
    DenominatorIsSurvivors(img, threshold);
    if Survivors(img, threshold) != [] {
      PercentagesSumTo100(Survivors(img, threshold), NonWhiteTotal(img, threshold));
    }
  }

  /** The facts of one record, read off its position in the survivor table. */
  lemma RecordAt(img: Image, threshold: int, i: int)
    requires WellFormed(img)
    requires 0 <= i < |Records(img, threshold)|
    ensures Records(img, threshold)[i].color in Pixels(img)
    ensures !IsWhite(Records(img, threshold)[i].color, threshold)
    ensures NonWhiteTotal(img, threshold) > 0
    ensures Records(img, threshold)[i].count == Occurrences(Pixels(img), Records(img, threshold)[i].color) > 0
    ensures Records(img, threshold)[i].percentage
      == Percent(Records(img, threshold)[i].count, NonWhiteTotal(img, threshold))
    ensures 0.0 < Records(img, threshold)[i].percentage <= 100.0
    ensures Records(img, threshold)[i].hex == HexOf(Records(img, threshold)[i].color)
  {
    var rows := UniqueCounts(Pixels(img));
    var kept := Survivors(img, threshold);
    DenominatorIsSurvivors(img, threshold);
    assert kept[i] in kept;
    var k :| 0 <= k < |rows| && rows[k] == kept[i];
    UniqueCountsExact(Pixels(img), k);
    PercentagesWithin(kept, NonWhiteTotal(img, threshold), i);
  }

  /**
   * Every record is a non-white colour of the image with its exact pixel
   * count, its exact share of the non-white pixels, a share in (0, 100], and
   * its canonical hex label.
   */
  lemma RecordsExact(img: Image, threshold: int)
    requires WellFormed(img)
    ensures forall x :: x in Records(img, threshold) ==>
      && x.color in Pixels(img) && !IsWhite(x.color, threshold)
      && NonWhiteTotal(img, threshold) > 0
      && x.count == Occurrences(Pixels(img), x.color) > 0
      && x.percentage == Percent(x.count, NonWhiteTotal(img, threshold))
      && 0.0 < x.percentage <= 100.0
      && x.hex == HexOf(x.color)
  {
    var recs := Records(img, threshold);
    forall x | x in recs
      ensures x.color in Pixels(img) && !IsWhite(x.color, threshold)
      ensures NonWhiteTotal(img, threshold) > 0
      ensures x.count == Occurrences(Pixels(img), x.color) > 0
      ensures x.percentage == Percent(x.count, NonWhiteTotal(img, threshold))
      ensures 0.0 < x.percentage <= 100.0
      ensures x.hex == HexOf(x.color)
    {
      var i :| 0 <= i < |recs| && recs[i] == x;
      RecordAt(img, threshold, i);
    }
  }

  /** The records follow the survivor rows one for one, colour by colour. */
  lemma RecordsFollowSurvivors(img: Image, threshold: int)
    requires WellFormed(img)
    ensures |Records(img, threshold)| == |Survivors(img, threshold)|
    ensures forall i :: 0 <= i < |Survivors(img, threshold)| ==>
      Records(img, threshold)[i].color == Survivors(img, threshold)[i].color
  {
  }

  /** Every non-white colour of the image has a record: nothing is lost before the filter. */
  lemma RecordsComplete(img: Image, threshold: int, c: Rgb)
    requires WellFormed(img)
    requires c in Pixels(img) && !IsWhite(c, threshold)
    ensures exists i :: 0 <= i < |Records(img, threshold)| && Records(img, threshold)[i].color == c
  {
    var rows := UniqueCounts(Pixels(img));
    var kept := Survivors(img, threshold);
    UniqueCountsHas(Pixels(img), c);
    var k :| 0 <= k < |rows| && rows[k].color == c;
    assert rows[k] in kept;
    var i :| 0 <= i < |kept| && kept[i] == rows[k];
    RecordsFollowSurvivors(img, threshold);
    assert Records(img, threshold)[i].color == c;
  }

  /**
   * The whole pipeline of app.py: every colour in the result is non-white,
   * with its exact pixel count, its exact share of the non-white pixels (at
   * least the threshold, at most 100) and its canonical hex label; colours
   * are distinct and ranked by count, largest first.
   */
  lemma AnalyzeExact(img: Image, pctThreshold: real, whiteThreshold: int)
    requires WellFormed(img)
    ensures NonIncreasing(Analyze(img, pctThreshold, whiteThreshold))
    ensures DistinctColors(Analyze(img, pctThreshold, whiteThreshold))
    ensures forall x :: x in Analyze(img, pctThreshold, whiteThreshold) <==>
      x in Records(img, whiteThreshold) && x.percentage >= pctThreshold
    ensures forall x :: x in Analyze(img, pctThreshold, whiteThreshold) ==>
      && x.color in Pixels(img) && !IsWhite(x.color, whiteThreshold)
      && NonWhiteTotal(img, whiteThreshold) > 0
      && x.count == Occurrences(Pixels(img), x.color) > 0
      && x.percentage == Percent(x.count, NonWhiteTotal(img, whiteThreshold))
      && pctThreshold <= x.percentage <= 100.0
      && x.hex == HexOf(x.color)
  {
    RecordsSumTo100(img, whiteThreshold);
    RecordsExact(img, whiteThreshold);
    RankCorrect(Records(img, whiteThreshold), AtLeastPercent(pctThreshold));
  }

  /**
   * Nothing that qualifies is lost: every non-white colour of the image whose
   * share of the non-white pixels reaches the threshold is in the result.
   */
  lemma AnalyzeComplete(img: Image, pctThreshold: real, whiteThreshold: int, c: Rgb)
    requires WellFormed(img)
    requires c in Pixels(img) && !IsWhite(c, whiteThreshold)
    requires NonWhiteTotal(img, whiteThreshold) > 0
    requires Percent(Occurrences(Pixels(img), c), NonWhiteTotal(img, whiteThreshold)) >= pctThreshold
    ensures exists j :: 0 <= j < |Analyze(img, pctThreshold, whiteThreshold)|
                     && Analyze(img, pctThreshold, whiteThreshold)[j].color == c
  {
    var recs := Records(img, whiteThreshold);
    var result := Analyze(img, pctThreshold, whiteThreshold);
    RecordsComplete(img, whiteThreshold, c);
    RecordsExact(img, whiteThreshold);
    RankCorrect(recs, AtLeastPercent(pctThreshold));
    var i :| 0 <= i < |recs| && recs[i].color == c;
    assert recs[i] in recs;
    assert recs[i] in result;
    var j :| 0 <= j < |result| && result[j] == recs[i];
  }

  /** One row of the colour table of app.py (the colour-sample HTML is not modelled). */
  datatype TableRow = TableRow(hex: string, rgb: string, count: nat, percentage: real,
                               r: Channel, g: Channel, b: Channel)

  function RowColor(row: TableRow): Rgb {
    Rgb(row.r, row.g, row.b)
  }

  /** The table row of a record. */
  function RenderRow(rec: ColorRecord): TableRow {
    TableRow(rec.hex, RgbLabel(rec.color), rec.count, rec.percentage,
             rec.color.r, rec.color.g, rec.color.b)
  }

  /** The `Hex` and `RGB` cells both describe the hidden `R`, `G`, `B` cells. */
  predicate ConsistentRow(row: TableRow) {
    row.hex == HexOf(RowColor(row)) && row.rgb == RgbLabel(RowColor(row))
  }

  /**
   * The result area of app.py as evidently intended: the "no colours"
   * message when nothing passes the filters, else the table and the chart.
   */
  function ResultArea(img: Image, pctThreshold: real, whiteThreshold: int): View<TableRow>
    requires WellFormed(img)
  {
    Present(Analyze(img, pctThreshold, whiteThreshold), RenderRow)
  }

  /**
   * `process_image` of app.py as written. The `Hex` column is attached with a
   * row-wise `df.apply` after the white mask. When no row survives the mask,
   * pandas probes the lambda with a row of NaN, `int(nan)` raises inside the
   * probe, `apply` hands back a copy of the whole five-column frame, and
   * assigning that frame to the single column `Hex` raises `ValueError`.
   * Nothing around it catches the exception, so the "no colours" branch is
   * not reached for such an image.
   */
  function ProcessAsWritten(img: Image, pctThreshold: real, whiteThreshold: int): (out: Outcome<TableRow>)
    requires WellFormed(img)
    ensures out.Raised? <==> NonWhiteTotal(img, whiteThreshold) == 0
    ensures out.Displayed? ==> out.area == ResultArea(img, pctThreshold, whiteThreshold)
  {
    DenominatorIsSurvivors(img, whiteThreshold);
    if Records(img, whiteThreshold) == [] then Raised
    else Displayed(ResultArea(img, pctThreshold, whiteThreshold))
  }

  /**
   * As intended: when every pixel is white nothing survives the mask, the
   * denominator is 0, the ranking is empty and the "no colours" message is
   * shown.
   */
  lemma AllWhiteShowsNoColours(img: Image, pctThreshold: real, whiteThreshold: int)
    requires WellFormed(img)
    requires forall c :: c in Pixels(img) ==> IsWhite(c, whiteThreshold)
    ensures Denominator(img, whiteThreshold) == 0
    ensures Analyze(img, pctThreshold, whiteThreshold) == []
    ensures ResultArea(img, pctThreshold, whiteThreshold).NoColours?
  {
    AllWhiteNoPixels(Pixels(img), whiteThreshold);
    DenominatorIsSurvivors(img, whiteThreshold);
  }

  /**
   * As written, the same all-white image raises instead of showing the
   * "no colours" message.
   */
  lemma AllWhiteRaisesAsWritten(img: Image, pctThreshold: real, whiteThreshold: int)
    requires WellFormed(img)
    requires forall c :: c in Pixels(img) ==> IsWhite(c, whiteThreshold)
    ensures ProcessAsWritten(img, pctThreshold, whiteThreshold).Raised?
    ensures ResultArea(img, pctThreshold, whiteThreshold).NoColours?
  {
    AllWhiteNoPixels(Pixels(img), whiteThreshold);
    AllWhiteShowsNoColours(img, pctThreshold, whiteThreshold);
  }

  /** A single pure-white pixel at the default thresholds (1%, white from 252) already raises. */
  lemma WhitePixelRaises()
    ensures ProcessAsWritten(Image(1, 1, [[Rgb(255, 255, 255)]]), 1.0, 252).Raised?
    ensures ResultArea(Image(1, 1, [[Rgb(255, 255, 255)]]), 1.0, 252).NoColours?
  {
    var img := Image(1, 1, [[Rgb(255, 255, 255)]]);
    assert Pixels(img) == [Rgb(255, 255, 255)];
    AllWhiteRaisesAsWritten(img, 1.0, 252);
  }

  /**
   * Every table row is consistent, and its `Hex` and `RGB` cells both read
   * back to the colour of the record it shows.
   */
  lemma TableRowsCorrect(img: Image, pctThreshold: real, whiteThreshold: int)
    requires WellFormed(img)
    requires ResultArea(img, pctThreshold, whiteThreshold).Shown?
    ensures var v := ResultArea(img, pctThreshold, whiteThreshold);
      forall i :: 0 <= i < |v.table| ==>
        && ConsistentRow(v.table[i])
        && ParseHex(v.table[i].hex) == Some(Analyze(img, pctThreshold, whiteThreshold)[i].color)
        && ParseRgbLabel(v.table[i].rgb) == Some(Analyze(img, pctThreshold, whiteThreshold)[i].color)
  {
    var result := Analyze(img, pctThreshold, whiteThreshold);
    var v := ResultArea(img, pctThreshold, whiteThreshold);
    AnalyzeExact(img, pctThreshold, whiteThreshold);
    forall i | 0 <= i < |v.table|
      ensures ConsistentRow(v.table[i])
      ensures ParseHex(v.table[i].hex) == Some(result[i].color)
      ensures ParseRgbLabel(v.table[i].rgb) == Some(result[i].color)
    {
      assert result[i] in result;
      assert RowColor(v.table[i]) == result[i].color;
      HexRoundTrip(result[i].color);
      RgbLabelRoundTrip(result[i].color);
    }
  }
}
