# GetColor colour histogram, in Dafny

GetColor is a small Dash web app. It takes an uploaded image and lists the
distinct RGB colours in it. Each colour comes with its pixel count, its share
of the pixels in percent, and its `#rrggbb` hex label. The app filters the
colours by a threshold, ranks them by count, and shows them as a table and a
bar chart of at most 20 bars. There are two variants:

- **app.py** drops near-white colours: a colour whose three channels are all
  at least the white threshold is removed. Shares are taken of the non-white
  pixels only. The filter is on the share in percent. A copy button puts the
  selected table rows on the clipboard as a hex list, a Python list or an R
  vector.
- **main.py** keeps every colour. Shares are taken of all `h * w` pixels. The
  filter is on the raw pixel count.

The model is made of these modules:

- `Colour`: the image, flattening and the white test.
- `Aggregate`: `np.unique(pixels, axis=0, return_counts=True)`, modelled as a
  fold that inserts each pixel into a table of colours kept in lexicographic
  order.
- `Ranking`: records, percentages, the filter and the sort by count.
- `HexCode` and `Text`: the `Hex` and `RGB` cell texts, with parsers that
  read them back.
- `Export`: the table, the 20-bar chart cap and the "no colours" branch.
- `AppHistogram` and `MainHistogram`: the two pipelines end to end.
- `CopyFormat`: the client-side copy callback, as a method with a loop.

The pipelines are pure functions. The copy callback is a method whose result
is tied to specification functions: the selection of rows, which has lemmas
on its members and their order, and the three clipboard texts, each of which
has a parser and a round-trip lemma.

## Model

| member | source | states |
|---|---|---|
| Colour.FlattenLength | app.py:162-167 | The flattened pixel list of an `h` by `w` image has exactly `h * w` entries (`total_pixels`). |
| Colour.FlattenAt | app.py:167 | Pixel `(i, j)` sits at position `i * w + j` of the flattened list (row-major `reshape(-1, 3)`). |
| Colour.NonWhitePixels | app.py:176-179 | A colour is among the non-white pixels exactly when it occurs in the image and is not white (all three channels at or above the threshold). Each non-white colour keeps all its occurrences and each white colour loses all of them. |
| Colour.AllWhiteNoPixels | app.py:176-179 | When every pixel is white, no non-white pixel remains. |
| Aggregate.UniqueCountsCorrect | app.py:170 | The unique-colour table is strictly increasing in lexicographic order, every count is positive, the counts sum to the number of pixels, the colours are exactly the image's colours, and each colour's count is its number of occurrences. |
| Aggregate.UniqueCountsExact | app.py:170 | Every row of the unique-colour table is a colour of the image with its exact, positive occurrence count. |
| Aggregate.AddPixelLookup | app.py:170 | Counting one more pixel raises that colour's count by one and leaves every other count unchanged. |
| Aggregate.AddPixelOrdered | app.py:170 | Counting a pixel keeps the table in strictly increasing colour order. |
| Aggregate.SumPositive | app.py:170 | A table of positive counts sums to zero exactly when it is empty. |
| AppHistogram.NonWhiteRows | app.py:176-181 | The kept rows are exactly the non-white rows of the table, with their counts unchanged. |
| AppHistogram.WhiteRows | app.py:180 | The rows counted in `counts_filtered` are exactly the white rows. |
| AppHistogram.NonWhiteOrdered | app.py:179-181 | Masking keeps the surviving rows in colour order, with positive counts. |
| AppHistogram.WhitePartition | app.py:176-181 | The white and non-white counts together add up to all the pixels. |
| AppHistogram.NonWhiteCountsPixels | app.py:176-184 | The kept counts add up to the number of non-white pixels of the image. |
| AppHistogram.DenominatorIsSurvivors | app.py:184 | `total_pixels - sum(counts_filtered)` equals the sum of the kept counts, which is the number of non-white pixels. The kept table stays ordered and positive, and it is empty exactly when that number is zero. |
| AppHistogram.Records | app.py:183-186 | The records are the kept rows, each with its percentage over the non-white total. That total is positive whenever a row is kept. |
| AppHistogram.RecordsSumTo100 | app.py:184 | Record colours are distinct, and when any colour survives, the exact percentages sum to 100. |
| AppHistogram.RecordsExact | app.py:170-186 | Every record is a non-white colour of the image with its exact count. Its percentage is the count over the non-white total, times 100, and lies in (0, 100]. Its hex is the colour's canonical label. |
| AppHistogram.RecordsComplete | app.py:170-186 | Every non-white colour of the image has a record. |
| AppHistogram.AnalyzeExact | app.py:188 | A record is in the result if and only if it is one of the records and its percentage reaches `pct_threshold`. The result is ordered by count, largest first, and its colours are distinct. Each entry has its exact count and percentage, at least the threshold and at most 100. |
| AppHistogram.AnalyzeComplete | app.py:176-188 | Every non-white colour whose exact share reaches the threshold appears in the result. |
| AppHistogram.AllWhiteShowsNoColours | app.py:201-203 | As intended: when every pixel is white, the denominator is 0, the ranking is empty and the result area is the "no colours" message. The code as written raises before reaching this branch (see Findings). |
| AppHistogram.ProcessAsWritten | app.py:185-186 | As written, the run raises exactly when no pixel is non-white, because attaching `Hex` to a frame with no rows fails. Otherwise it shows the intended result area. |
| AppHistogram.AllWhiteRaisesAsWritten | app.py:179-186 | For every image whose pixels are all white, the code as written raises, where the intended result is the "no colours" message. |
| AppHistogram.WhitePixelRaises | app.py:185-186 | A 1 by 1 image of one `(255, 255, 255)` pixel, at the default thresholds 1 and 252, raises as written and shows "no colours" as intended. |
| AppHistogram.TableRowsCorrect | app.py:218-229 | Every table row's `Hex`, `RGB` and hidden `R`, `G`, `B` cells agree, and `Hex` and `RGB` each read back to the colour of the ranked record at the same position. |
| MainHistogram.Conservation | main.py:113-121 | The unique-colour table's counts sum to `h * w`, its colours are distinct and are exactly the image's colours, and it is empty exactly when the image has no pixels. |
| MainHistogram.Records | main.py:125-128 | The records are the unique colours with their percentages over `total_pixels`, which is positive whenever there is a colour. |
| MainHistogram.RecordsSumTo100 | main.py:126 | Record colours are distinct, and for a non-empty image the exact percentages over all pixels sum to 100. |
| MainHistogram.RecordsExact | main.py:121-128 | Every record is a colour of the image with its exact count. Its percentage is the count over `h * w`, times 100, and lies in (0, 100]. Its hex is the colour's canonical label. |
| MainHistogram.AnalyzeExact | main.py:130 | The result holds exactly the records whose raw count reaches `threshold`. It is ordered by count, largest first, with distinct colours and exact counts and percentages. |
| MainHistogram.AnalyzeComplete | main.py:121-130 | Every colour with at least `threshold` pixels appears in the result. |
| MainHistogram.NothingQualifiesShowsNoColours | main.py:144-146 | When no colour reaches the threshold, the ranking is empty and the intended result area is the "no colours" message. As written, an image with at least one pixel shows that message, and an image with no pixels raises. |
| MainHistogram.ProcessAsWritten | main.py:127-128 | As written, the run raises exactly when the image has no pixels, because attaching `Hex` to a frame with no rows fails. Otherwise it shows the intended result area. |
| MainHistogram.EmptyImageRaises | main.py:127-128 | An image with no pixels raises as written, where the intended result is the "no colours" message. |
| MainHistogram.TableRowsCorrect | main.py:159-168 | Each table row's `Hex` and `RGB` cells read back to the colour of the ranked record at the same position. |
| Ranking.MakeRecords | app.py:183-186 | There is one record per table row, in order, carrying the row's colour and count, its percentage and its hex label. |
| Ranking.PercentagesSumTo100 | app.py:184 | When the denominator is the sum of the counts, the exact percentages sum to 100. |
| Ranking.PercentagesWithin | app.py:184 | Every percentage over the sum of positive counts lies in (0, 100]. |
| Ranking.Where | app.py:188 | The boolean-mask filter keeps exactly the records that satisfy the condition. |
| Ranking.WhereDistinct | app.py:188 | Filtering keeps colours distinct and adds no colour. |
| Ranking.SortByCountCorrect | app.py:188 | `sort_values('Count', ascending=False)` yields a permutation of its input ordered by count, largest first. |
| Ranking.SortByCountColors | app.py:188 | Sorting keeps the colour set and keeps colours distinct. |
| Ranking.RankCorrect | main.py:130 | Filter then sort yields a permutation of the filtered records. It is ordered by count, largest first, holds exactly the input records that pass the condition, and keeps colours distinct. |
| HexCode.HexOf | app.py:185-186 | A hex label is `#` followed by six lower-case hexadecimal digits. |
| HexCode.HexRoundTrip | app.py:185-186 | Reading a colour's hex label gives back the colour. |
| HexCode.HexCanonical | main.py:127-128 | Any text that reads as a colour is that colour's hex label, so the format is canonical. |
| HexCode.HexOfInjective | app.py:185-186 | Distinct colours have distinct hex labels. |
| Text.Digits | app.py:222 | A channel's decimal text is non-empty, all digits, and has no leading zero. |
| Text.ValueOfDigits | app.py:222 | The decimal text of a number denotes that number. |
| Text.RgbLabelRoundTrip | app.py:222 | Reading the `RGB` label `(R, G, B)` of a colour gives back the colour. |
| Text.RgbLabelInjective | main.py:163 | Distinct colours have distinct `RGB` labels. |
| Export.Chart | app.py:246 | The chart shows the first `min(n, 20)` ranked records, in order. |
| Export.ChartShowsLargest | main.py:202 | On a ranking ordered by count, no colour left off the chart has more pixels than a colour on it. |
| Export.Present | app.py:201-203 | The "no colours" branch is taken exactly when the ranking is empty. Otherwise row `i` of the table renders ranked record `i`, one row per record, and the chart is the first `min(n, 20)` ranked records, in order. |
| CopyFormat.CopySelected | app.py:310-361 | Returns `''` when the first guard fails and `'请先选择颜色'` for an empty selection, writing nothing to the clipboard in either case. With no in-range index it returns `'没有有效的颜色数据'`, and for an unknown format `'未知的复制格式'`. Otherwise it writes the format's text of the in-range selected rows and reports their number and the format. |
| CopyFormat.SelectionAppend | app.py:320-329 | The selection follows the order of the selected indices: selecting a concatenation gives the concatenation of the two selections. |
| CopyFormat.SelectionSingle | app.py:323-326 | A single index selects its row when it is in range, and nothing otherwise. |
| CopyFormat.SelectionMembers | app.py:320-329 | A row is selected exactly when some selected index is in range and points at it. |
| CopyFormat.SelectionEmpty | app.py:320-333 | The selection is empty, giving the "no valid data" message, exactly when no selected index is in range. |
| CopyFormat.SelectionAllValid | app.py:320-329 | When every index is in range, the selection has one row per index: the row at that index. |
| CopyFormat.FormatText | app.py:335-351 | Exactly the format names `hex`, `py` and `r` produce a clipboard text. |
| CopyFormat.HexListRoundTrip | app.py:336-339 | The `hex` text of consistent rows reads back to the rows' colours, in order. |
| CopyFormat.PyListRoundTrip | app.py:340-343 | The `py` text `[[r,g,b], ...]` reads back to the rows' colours, in order. |
| CopyFormat.JoinedItemsRoundTrip | app.py:343-347 | Items joined by the separator and followed by the closing bracket read back to their colours, in order, whenever each item reads as its colour. |
| CopyFormat.RVectorRoundTrip | app.py:344-348 | The `r` text `c(c(r,g,b),...)` reads back to the rows' colours, in order. |
| CopyFormat.CopyFromTable | app.py:320-348 | For selections from the table app.py shows, each of the three clipboard texts reads back to exactly the colours of the in-range selected rows, in selection order. |

## Left out

- Decoding the upload (base64, PIL, `convert('RGB')`) is left out. The model starts from a well-formed grid of RGB pixels.
- The decode-error branch is left out.
- The image figure, the Plotly bar chart styling and the page layout are left out. Of the chart, only `head(20)` is kept.
- `AppHistogram.AnalyzeExact`: percentages are exact rationals, not rounded by `.round(2)`. The `pct_threshold` filter is applied to the exact value, so near the threshold the model and app.py can disagree in both directions. A share of 0.996 against a threshold of 1 is dropped here but rounds to 1.0 and is kept by app.py. A share of 1.0049 against a threshold of 1.0045 is kept here but rounds to 1.0 and is dropped by app.py. Floating point is not modelled.
- `MainHistogram.AnalyzeExact`: the displayed percentage is exact, not rounded to two decimals. The count filter is unaffected.
- `Ranking.SortByCountCorrect`: only the order by count and the permutation are stated. pandas' default quicksort is not stable, so the order among equal counts is not modelled. The model's insertion sort fixes one order for ties, which need not match pandas'.
- The `ColorSample` HTML cell of both tables is left out, since it is markup with no data.
- main.py's `Actions` button, a per-row clipboard copy of the hex value, is left out.
- The hidden-column styling of the table is left out.
- `CopyFormat.CopySelected`: the `Array.isArray` check is not modelled. The selection is always an array of integer indices or absent.
- `CopyFormat.CopySelected`: the `if (row)` check is not modelled. Rows of the table data are always present objects, so the check never fails.
- `CopyFormat.CopySelected`: a missing format value, which would also give `'未知的复制格式'`, is not modelled. The format is a string.
- Writing to the clipboard through a temporary `textarea` and `execCommand('copy')` is represented only by the `clipboard` out-parameter.
- The paste-area callback and the global-style callback are left out, since they are browser side effects.
- The slider and input widgets are left out. Thresholds are parameters of any value.

## Findings

| source | as written | input that shows it | evidently intended | confidence | as-written member | corrected member |
|---|---|---|---|---|---|---|
| app.py:185-186 | After the white mask, `df['Hex'] = df.apply(..., axis=1)` runs on a frame that may have no rows. pandas then calls the lambda on a row of NaN, `int(nan)` raises inside that call, `apply` returns the whole five-column frame, and assigning it to the single column `Hex` raises `ValueError`, which nothing catches. | a 1 by 1 image of one `(255, 255, 255)` pixel with `white_thresh` 252 | the `filtered_df.empty` branch at app.py:201-203 shows "no colours" | medium, not executed | AppHistogram.ProcessAsWritten, AppHistogram.WhitePixelRaises | AppHistogram.ResultArea, AppHistogram.AllWhiteShowsNoColours |
| main.py:127-128 | The same `df.apply` raises when the frame has no rows. Without a white mask that happens only for an image with no pixels. | an image of 0 by 0 pixels | the `filtered_df.empty` branch at main.py:144-146 shows "no colours" | low, not executed: PIL does not normally decode an image with no pixels | MainHistogram.ProcessAsWritten, MainHistogram.EmptyImageRaises | MainHistogram.ResultArea, MainHistogram.NothingQualifiesShowsNoColours |
