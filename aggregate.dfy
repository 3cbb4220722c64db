/**
 * The colour aggregation of `np.unique(pixels, axis=0, return_counts=True)`:
 * the distinct colours of the pixel list in lexicographic order, each with
 * the exact number of pixels that have it.
 */
module Aggregate {
  import opened Colour

  /** One row of the unique-colour table: a colour and its pixel count. */
  datatype ColorCount = ColorCount(color: Rgb, count: nat)

  /** The colours are listed in strictly increasing lexicographic order. */
  predicate StrictlyIncreasing(rows: seq<ColorCount>) {
    forall i, j :: 0 <= i < j < |rows| ==> LexLess(rows[i].color, rows[j].color)
  }

  /** Every listed colour has at least one pixel. */
  predicate Positive(rows: seq<ColorCount>) {
    forall i :: 0 <= i < |rows| ==> rows[i].count > 0
  }

  function ColorSet(rows: seq<ColorCount>): set<Rgb> {
    set i | 0 <= i < |rows| :: rows[i].color
  }

  /** `sum(counts)`. */
  function SumCounts(rows: seq<ColorCount>): nat {
    if rows == [] then 0 else rows[0].count + SumCounts(rows[1..])
  }

  /** The count the table gives colour `d`, or 0 when `d` is not listed. */
  function Lookup(rows: seq<ColorCount>, d: Rgb): nat {
    if rows == [] then 0
    else if rows[0].color == d then rows[0].count
    else Lookup(rows[1..], d)
  }

  /** Counts one more pixel of colour `c` into an ordered table. */
  function AddPixel(rows: seq<ColorCount>, c: Rgb): seq<ColorCount> {
    if rows == [] then [ColorCount(c, 1)]
    else if rows[0].color == c then [ColorCount(c, rows[0].count + 1)] + rows[1..]
    else if LexLess(c, rows[0].color) then [ColorCount(c, 1)] + rows
    else [rows[0]] + AddPixel(rows[1..], c)
  }

  /** The unique-colour table of a pixel list. */
  function UniqueCounts(p: seq<Rgb>): seq<ColorCount> {
    if p == [] then [] else AddPixel(UniqueCounts(p[..|p| - 1]), p[|p| - 1])
  }

  lemma ColorSetCons(x: ColorCount, s: seq<ColorCount>)
    ensures ColorSet([x] + s) == {x.color} + ColorSet(s)
  {
    var t := [x] + s;
    forall y | y in ColorSet(t) ensures y in {x.color} + ColorSet(s) {
      var i :| 0 <= i < |t| && t[i].color == y;
      if i > 0 { assert s[i - 1].color == y; }
    }
    forall y | y in ColorSet(s) ensures y in ColorSet(t) {
      var i :| 0 <= i < |s| && s[i].color == y;
      assert t[i + 1].color == y;
    }
    assert t[0].color == x.color;
  }

  lemma ColorSetFirst(rows: seq<ColorCount>)
    requires rows != []
    ensures ColorSet(rows) == {rows[0].color} + ColorSet(rows[1..])
  {
    assert rows == [rows[0]] + rows[1..];
    ColorSetCons(rows[0], rows[1..]);
  }

  lemma IncreasingTail(rows: seq<ColorCount>)
    requires StrictlyIncreasing(rows) && rows != []
    ensures StrictlyIncreasing(rows[1..])
    ensures forall y :: y in ColorSet(rows[1..]) ==> LexLess(rows[0].color, y)
  {
    var tail := rows[1..];
    forall i, j | 0 <= i < j < |tail| ensures LexLess(tail[i].color, tail[j].color) {
      assert tail[i] == rows[i + 1] && tail[j] == rows[j + 1];
    }
    forall y | y in ColorSet(tail) ensures LexLess(rows[0].color, y) {
      var k :| 0 <= k < |tail| && tail[k].color == y;
      assert tail[k] == rows[k + 1];
    }
  }

  lemma IncreasingCons(x: ColorCount, s: seq<ColorCount>)
    requires StrictlyIncreasing(s)
    requires forall y :: y in ColorSet(s) ==> LexLess(x.color, y)
    ensures StrictlyIncreasing([x] + s)
  {
    var t := [x] + s;
    forall i, j | 0 <= i < j < |t| ensures LexLess(t[i].color, t[j].color) {
      assert t[j] == s[j - 1];
      assert s[j - 1].color in ColorSet(s);
      if i > 0 { assert t[i] == s[i - 1]; }
    }
  }

  /** A colour that is not listed is looked up as 0. */
  lemma {:induction false} LookupAbsent(rows: seq<ColorCount>, d: Rgb)
    requires d !in ColorSet(rows)
    ensures Lookup(rows, d) == 0
  {
    if rows != [] {
      ColorSetFirst(rows);
      LookupAbsent(rows[1..], d);
    }
  }

  /** Adding a pixel adds its colour to the set of listed colours. */
  lemma {:induction false} AddPixelColors(rows: seq<ColorCount>, c: Rgb)
    ensures ColorSet(AddPixel(rows, c)) == ColorSet(rows) + {c}
  {
    if rows == [] {
      ColorSetCons(ColorCount(c, 1), []);
    } else if rows[0].color == c {
      ColorSetFirst(rows);
      ColorSetCons(ColorCount(c, rows[0].count + 1), rows[1..]);
    } else if LexLess(c, rows[0].color) {
      ColorSetCons(ColorCount(c, 1), rows);
    } else {
      ColorSetFirst(rows);
      AddPixelColors(rows[1..], c);
      ColorSetCons(rows[0], AddPixel(rows[1..], c));
    }
  }

  /** Adding a pixel keeps the table in strictly increasing order. */
  lemma {:induction false} AddPixelOrdered(rows: seq<ColorCount>, c: Rgb)
    requires StrictlyIncreasing(rows)
    ensures StrictlyIncreasing(AddPixel(rows, c))
  {
    if rows == [] {
    } else if rows[0].color == c {
      IncreasingTail(rows);
      IncreasingCons(ColorCount(c, rows[0].count + 1), rows[1..]);
    } else if LexLess(c, rows[0].color) {
      ColorSetFirst(rows);
      IncreasingTail(rows);
      IncreasingCons(ColorCount(c, 1), rows);
    } else {
      IncreasingTail(rows);
      AddPixelOrdered(rows[1..], c);
      AddPixelColors(rows[1..], c);
      IncreasingCons(rows[0], AddPixel(rows[1..], c));
    }
  }

  /** Adding a pixel keeps every count positive and adds one to the total. */
  lemma {:induction false} AddPixelSum(rows: seq<ColorCount>, c: Rgb)
    requires Positive(rows)
    ensures Positive(AddPixel(rows, c))
    ensures SumCounts(AddPixel(rows, c)) == SumCounts(rows) + 1
  {
    if rows != [] && rows[0].color != c && !LexLess(c, rows[0].color) {
      AddPixelSum(rows[1..], c);
      var t := AddPixel(rows[1..], c);
      assert AddPixel(rows, c) == [rows[0]] + t;
      assert ([rows[0]] + t)[1..] == t;
    } else if rows != [] && rows[0].color == c {
      assert ([ColorCount(c, rows[0].count + 1)] + rows[1..])[1..] == rows[1..];
    } else if rows != [] {
      assert ([ColorCount(c, 1)] + rows)[1..] == rows;
    }
  }

  /** Adding a pixel of colour `c` raises the count of `c` by one and no other. */
  lemma {:induction false} AddPixelLookup(rows: seq<ColorCount>, c: Rgb, d: Rgb)
    requires StrictlyIncreasing(rows)
    ensures Lookup(AddPixel(rows, c), d) == Lookup(rows, d) + (if d == c then 1 else 0)
  {
    if rows == [] {
    } else if rows[0].color == c {
      assert ([ColorCount(c, rows[0].count + 1)] + rows[1..])[1..] == rows[1..];
    } else if LexLess(c, rows[0].color) {
      assert ([ColorCount(c, 1)] + rows)[1..] == rows;
      if d == c {
        ColorSetFirst(rows);
        IncreasingTail(rows);
        LookupAbsent(rows, c);
      }
    } else {
      IncreasingTail(rows);
      AddPixelLookup(rows[1..], c, d);
      var t := AddPixel(rows[1..], c);
      assert ([rows[0]] + t)[1..] == t;
    }
  }

  /** In an ordered table each row's count is what `Lookup` finds for its colour. */
  lemma {:induction false} LookupAt(rows: seq<ColorCount>, i: nat)
    requires StrictlyIncreasing(rows) && i < |rows|
    ensures Lookup(rows, rows[i].color) == rows[i].count
  {
    if i > 0 {
      assert rows[0].color != rows[i].color by { assert LexLess(rows[0].color, rows[i].color); }
      var tail := rows[1..];
      assert StrictlyIncreasing(tail) by {
        forall a, b | 0 <= a < b < |tail| ensures LexLess(tail[a].color, tail[b].color) {
          assert tail[a] == rows[a + 1] && tail[b] == rows[b + 1];
        }
      }
      LookupAt(tail, i - 1);
    }
  }

  /**
   * The contract of `np.unique(pixels, axis=0, return_counts=True)`: the
   * colours are sorted and pairwise distinct, they are exactly the colours
   * that occur, each count is the exact number of pixels of that colour,
   * and the counts sum to the number of pixels.
   */
  lemma {:induction false} UniqueCountsCorrect(p: seq<Rgb>)
    ensures StrictlyIncreasing(UniqueCounts(p)) && Positive(UniqueCounts(p))
    ensures SumCounts(UniqueCounts(p)) == |p|
    ensures ColorSet(UniqueCounts(p)) == set x | x in p
    ensures forall d :: Lookup(UniqueCounts(p), d) == Occurrences(p, d)
  {
    if p != [] {
      var init, last := p[..|p| - 1], p[|p| - 1];
      assert p == init + [last];
      UniqueCountsCorrect(init);
      var prev := UniqueCounts(init);
      assert UniqueCounts(p) == AddPixel(prev, last);
      assert multiset(p) == multiset(init) + multiset{last};
      AddPixelColors(prev, last);
      AddPixelOrdered(prev, last);
      AddPixelSum(prev, last);
      forall d ensures Lookup(UniqueCounts(p), d) == Occurrences(p, d) {
        AddPixelLookup(prev, last, d);
        assert multiset(p)[d] == multiset(init)[d] + (if d == last then 1 else 0);
      }
      assert (set x | x in p) == (set x | x in init) + {last} by {
        forall x | x in p ensures x in init || x == last {
          var k :| 0 <= k < |p| && p[k] == x;
          if k < |p| - 1 { assert init[k] == x; }
        }
      }
    }
  }

  /** Every colour of the image has a row in the unique-colour table. */
  lemma UniqueCountsHas(p: seq<Rgb>, c: Rgb)
    requires c in p
    ensures exists k :: 0 <= k < |UniqueCounts(p)| && UniqueCounts(p)[k].color == c
  {
    UniqueCountsCorrect(p);
    assert c in ColorSet(UniqueCounts(p));
  }

  /** Each row of the table counts exactly the pixels of its colour. */
  lemma UniqueCountsExact(p: seq<Rgb>, i: nat)
    requires i < |UniqueCounts(p)|
    ensures var rows := UniqueCounts(p);
      rows[i].count == Occurrences(p, rows[i].color) > 0 && rows[i].color in p
  {
    var rows := UniqueCounts(p);
    UniqueCountsCorrect(p);
    LookupAt(rows, i);
    assert rows[i].color in ColorSet(rows);
  }

  /** A single row never counts more than the whole table. */
  lemma {:induction false} CountAtMostSum(rows: seq<ColorCount>, i: nat)
    requires i < |rows|
    ensures rows[i].count <= SumCounts(rows)
  {
    if i > 0 {
      CountAtMostSum(rows[1..], i - 1);
    }
  }

  /** A table with positive counts sums to zero only when it is empty. */
  lemma {:induction false} SumPositive(rows: seq<ColorCount>)
    requires Positive(rows)
    ensures SumCounts(rows) == 0 <==> rows == []
  {
    if rows != [] {
      assert rows[0].count > 0;
    }
  }
}
