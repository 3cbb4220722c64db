/**
 * The colour records both apps build from the unique-colour table
 * (the `Count`, `Percentage` and `Hex` columns), the row filter and the
 * `sort_values('Count', ascending=False)` ranking.
 */
module Ranking {
  import opened Colour
  import opened Aggregate
  import opened HexCode

  /** One DataFrame row once the derived columns are attached. */
  datatype ColorRecord = ColorRecord(color: Rgb, count: nat, percentage: real, hex: string)

  /** `Count / denominator * 100`, as an exact rational number. */
  function Percent(count: nat, denominator: nat): real
    requires denominator > 0
  {
    (count as real) * 100.0 / (denominator as real)
  }

  /** The record of one unique-colour row against a denominator. */
  function RecordOf(row: ColorCount, denominator: nat): ColorRecord
    requires denominator > 0
  {
    ColorRecord(row.color, row.count, Percent(row.count, denominator), HexOf(row.color))
  }

  /** Attaches the `Count`, `Percentage` and `Hex` columns to every row. */
  function MakeRecords(rows: seq<ColorCount>, denominator: nat): (recs: seq<ColorRecord>)
    requires rows == [] || denominator > 0
    ensures |recs| == |rows|
    ensures forall i :: 0 <= i < |rows| ==> recs[i] == RecordOf(rows[i], denominator)
  {
    if rows == [] then [] else [RecordOf(rows[0], denominator)] + MakeRecords(rows[1..], denominator)
  }

  function SumPercent(recs: seq<ColorRecord>): real {
    if recs == [] then 0.0 else recs[0].percentage + SumPercent(recs[1..])
  }

  function RecordColors(recs: seq<ColorRecord>): set<Rgb> {
    set i | 0 <= i < |recs| :: recs[i].color
  }

  /** No two records share a colour. */
  predicate DistinctColors(recs: seq<ColorRecord>) {
    forall i, j :: 0 <= i < j < |recs| ==> recs[i].color != recs[j].color
  }

  /** Ordered by `Count`, largest first. */
  predicate NonIncreasing(recs: seq<ColorRecord>) {
    forall i, j :: 0 <= i < j < |recs| ==> recs[i].count >= recs[j].count
  }

  lemma PercentAdd(a: nat, b: nat, d: nat)
    requires d > 0
    ensures Percent(a, d) + Percent(b, d) == Percent(a + b, d)
  {
    var dr := d as real;
    assert (a as real) * 100.0 / dr + (b as real) * 100.0 / dr == ((a as real) * 100.0 + (b as real) * 100.0) / dr;
  }

  lemma {:induction false} SumPercentOfRecords(rows: seq<ColorCount>, d: nat)
    requires d > 0
    ensures SumPercent(MakeRecords(rows, d)) == Percent(SumCounts(rows), d)
  {
    if rows != [] {
      var recs := MakeRecords(rows, d);
      assert recs[1..] == MakeRecords(rows[1..], d);
      SumPercentOfRecords(rows[1..], d);
      PercentAdd(rows[0].count, SumCounts(rows[1..]), d);
    }
  }

  /**
   * Over the rows that make up the denominator, the exact percentages sum to
   * 100.
   */
  lemma PercentagesSumTo100(rows: seq<ColorCount>, d: nat)
    requires d == SumCounts(rows) && d > 0
    ensures SumPercent(MakeRecords(rows, d)) == 100.0
  {
    SumPercentOfRecords(rows, d);
    PercentOfWhole(d);
  }

  lemma PercentOfWhole(d: nat)
    requires d > 0
    ensures Percent(d, d) == 100.0
  {
    var dr := d as real;
    assert dr * 100.0 == 100.0 * dr;
    assert (100.0 * dr) / dr == 100.0;
  }

  lemma PercentWithin(count: nat, d: nat)
    requires 0 < count <= d
    ensures 0.0 < Percent(count, d) <= 100.0
  {
    var c, dr := count as real, d as real;
    assert c * 100.0 <= dr * 100.0;
    assert c * 100.0 / dr <= dr * 100.0 / dr;
  }

  /**
   * When the denominator is the total of the rows and every count is
   * positive, every percentage lies in (0, 100].
   */
  lemma PercentagesWithin(rows: seq<ColorCount>, d: nat, i: nat)
    requires Positive(rows) && d == SumCounts(rows) && i < |rows|
    ensures 0.0 < MakeRecords(rows, d)[i].percentage <= 100.0
  {
    CountAtMostSum(rows, i);
    PercentWithin(rows[i].count, d);
  }

  /** `df[mask]`: the records that satisfy `keep`, in their original order. */
  function Where(recs: seq<ColorRecord>, keep: ColorRecord -> bool): (r: seq<ColorRecord>)
    ensures forall x :: x in r <==> x in recs && keep(x)
  {
    if recs == [] then []
    else if keep(recs[0]) then [recs[0]] + Where(recs[1..], keep)
    else Where(recs[1..], keep)
  }

  /** Filtering keeps colours distinct and introduces no new colour. */
  lemma {:induction false} WhereDistinct(recs: seq<ColorRecord>, keep: ColorRecord -> bool)
    ensures RecordColors(Where(recs, keep)) <= RecordColors(recs)
    ensures DistinctColors(recs) ==> DistinctColors(Where(recs, keep))
  {
    if recs != [] {
      var rest := Where(recs[1..], keep);
      WhereDistinct(recs[1..], keep);
      RecordColorsFirst(recs);
      DistinctTail(recs);
      if keep(recs[0]) {
        RecordColorsCons(recs[0], rest);
        if DistinctColors(recs) {
          DistinctCons(recs[0], rest);
        }
      }
    }
  }

  lemma RecordColorsCons(x: ColorRecord, s: seq<ColorRecord>)
    ensures RecordColors([x] + s) == {x.color} + RecordColors(s)
  {
    var t := [x] + s;
    forall y | y in RecordColors(t) ensures y in {x.color} + RecordColors(s) {
      var i :| 0 <= i < |t| && t[i].color == y;
      if i > 0 { assert s[i - 1].color == y; }
    }
    forall y | y in RecordColors(s) ensures y in RecordColors(t) {
      var i :| 0 <= i < |s| && s[i].color == y;
      assert t[i + 1].color == y;
    }
    assert t[0].color == x.color;
  }

  lemma RecordColorsFirst(s: seq<ColorRecord>)
    requires s != []
    ensures RecordColors(s) == {s[0].color} + RecordColors(s[1..])
  {
    assert s == [s[0]] + s[1..];
    RecordColorsCons(s[0], s[1..]);
  }

  lemma DistinctTail(s: seq<ColorRecord>)
    requires s != []
    ensures DistinctColors(s) ==> DistinctColors(s[1..]) && s[0].color !in RecordColors(s[1..])
  {
    if DistinctColors(s) {
      var t := s[1..];
      forall i, j | 0 <= i < j < |t| ensures t[i].color != t[j].color {
        assert t[i] == s[i + 1] && t[j] == s[j + 1];
      }
      forall k | 0 <= k < |t| ensures t[k].color != s[0].color {
        assert t[k] == s[k + 1];
      }
    }
  }

  lemma DistinctCons(x: ColorRecord, s: seq<ColorRecord>)
    requires DistinctColors(s) && x.color !in RecordColors(s)
    ensures DistinctColors([x] + s)
  {
    var t := [x] + s;
    forall i, j | 0 <= i < j < |t| ensures t[i].color != t[j].color {
      assert t[j] == s[j - 1];
      assert s[j - 1].color in RecordColors(s);
      if i > 0 { assert t[i] == s[i - 1]; }
    }
  }

  /** Places `x` in front of the first record with a smaller count. */
  function InsertByCount(x: ColorRecord, s: seq<ColorRecord>): seq<ColorRecord> {
    if s == [] || x.count >= s[0].count then [x] + s
    else [s[0]] + InsertByCount(x, s[1..])
  }

  /** `sort_values('Count', ascending=False)`, as an insertion sort. */
  function SortByCount(s: seq<ColorRecord>): seq<ColorRecord> {
    if s == [] then [] else InsertByCount(s[0], SortByCount(s[1..]))
  }

  lemma NonIncreasingTail(s: seq<ColorRecord>)
    requires NonIncreasing(s) && s != []
    ensures NonIncreasing(s[1..])
    ensures forall y :: y in s[1..] ==> s[0].count >= y.count
  {
  }

  lemma NonIncreasingCons(x: ColorRecord, s: seq<ColorRecord>)
    requires NonIncreasing(s)
    requires forall y :: y in s ==> x.count >= y.count
    ensures NonIncreasing([x] + s)
  {
    var t := [x] + s;
    forall i, j | 0 <= i < j < |t| ensures t[i].count >= t[j].count {
      assert t[j] == s[j - 1];
      if i > 0 { assert t[i] == s[i - 1]; }
    }
  }

  lemma {:induction false} InsertByCountPermutes(x: ColorRecord, s: seq<ColorRecord>)
    ensures multiset(InsertByCount(x, s)) == multiset(s) + multiset{x}
  {
    if s != [] && x.count < s[0].count {
      InsertByCountPermutes(x, s[1..]);
      assert s == [s[0]] + s[1..];
    }
  }

  lemma {:induction false} InsertByCountOrdered(x: ColorRecord, s: seq<ColorRecord>)
    requires NonIncreasing(s)
    ensures NonIncreasing(InsertByCount(x, s))
  {
    if s == [] || x.count >= s[0].count {
      NonIncreasingCons(x, s);
    } else {
      NonIncreasingTail(s);
      InsertByCountOrdered(x, s[1..]);
      InsertByCountPermutes(x, s[1..]);
      var t := InsertByCount(x, s[1..]);
      forall y | y in t ensures s[0].count >= y.count {
        assert y in multiset(t);
      }
      NonIncreasingCons(s[0], t);
    }
  }

  lemma {:induction false} InsertByCountColors(x: ColorRecord, s: seq<ColorRecord>)
    ensures RecordColors(InsertByCount(x, s)) == RecordColors(s) + {x.color}
    ensures DistinctColors(s) && x.color !in RecordColors(s) ==> DistinctColors(InsertByCount(x, s))
  {
    if s == [] || x.count >= s[0].count {
      RecordColorsCons(x, s);
      if DistinctColors(s) && x.color !in RecordColors(s) {
        DistinctCons(x, s);
      }
    } else {
      InsertByCountColors(x, s[1..]);
      var t := InsertByCount(x, s[1..]);
      RecordColorsCons(s[0], t);
      RecordColorsFirst(s);
      DistinctTail(s);
      if DistinctColors(s) && x.color !in RecordColors(s) {
        DistinctCons(s[0], t);
      }
    }
  }

  /** The ranking is ordered by count, largest first, and is a permutation of its input. */
  lemma {:induction false} SortByCountCorrect(s: seq<ColorRecord>)
    ensures NonIncreasing(SortByCount(s))
    ensures multiset(SortByCount(s)) == multiset(s)
  {
    if s != [] {
      SortByCountCorrect(s[1..]);
      InsertByCountOrdered(s[0], SortByCount(s[1..]));
      InsertByCountPermutes(s[0], SortByCount(s[1..]));
      assert s == [s[0]] + s[1..];
    }
  }

  /** The ranking keeps the same colours, and keeps them distinct. */
  lemma {:induction false} SortByCountColors(s: seq<ColorRecord>)
    ensures RecordColors(SortByCount(s)) == RecordColors(s)
    ensures DistinctColors(s) ==> DistinctColors(SortByCount(s))
  {
    if s != [] {
      SortByCountColors(s[1..]);
      RecordColorsFirst(s);
      DistinctTail(s);
      InsertByCountColors(s[0], SortByCount(s[1..]));
    }
  }

  /** `df[df[...] >= threshold].sort_values('Count', ascending=False)`. */
  function Rank(recs: seq<ColorRecord>, keep: ColorRecord -> bool): seq<ColorRecord> {
    SortByCount(Where(recs, keep))
  }

  /**
   * The ranked result holds exactly the records that pass the filter (one
   * equal to the threshold included), as a permutation of them, ordered by
   * count, largest first; distinct colours stay distinct.
   */
  lemma RankCorrect(recs: seq<ColorRecord>, keep: ColorRecord -> bool)
    ensures multiset(Rank(recs, keep)) == multiset(Where(recs, keep))
    ensures NonIncreasing(Rank(recs, keep))
    ensures forall x :: x in Rank(recs, keep) <==> x in recs && keep(x)
    ensures DistinctColors(recs) ==> DistinctColors(Rank(recs, keep))
  {
    var kept := Where(recs, keep);
    SortByCountCorrect(kept);
    SortByCountColors(kept);
    WhereDistinct(recs, keep);
    forall x ensures x in Rank(recs, keep) <==> x in kept {
      assert x in multiset(Rank(recs, keep)) <==> x in multiset(kept);
    }
  }
}
