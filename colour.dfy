/** Option type used by the parsers of this project. */
module Wrappers {
  datatype Option<+T> = None | Some(value: T)
}

/**
 * Pixels and decoded images.
 *
 * `np.array(image.convert('RGB'))` is an H x W x 3 array of 8-bit channels;
 * `reshape(-1, 3)` lists its pixels in row-major order.
 */
module Colour {

  /** One 8-bit channel value. */
  type Channel = x: int | 0 <= x < 256

  datatype Rgb = Rgb(r: Channel, g: Channel, b: Channel)

  /** A decoded image of `height` rows, each of `width` pixels. */
  datatype Image = Image(height: nat, width: nat, rows: seq<seq<Rgb>>)

  /** The shape invariant every numpy image array has. */
  predicate WellFormed(img: Image) {
    && |img.rows| == img.height
    && forall i :: 0 <= i < |img.rows| ==> |img.rows[i]| == img.width
  }

  /** The pixel list of `reshape(-1, 3)`: the rows one after another. */
  function Flatten(rows: seq<seq<Rgb>>): seq<Rgb> {
    if rows == [] then [] else rows[0] + Flatten(rows[1..])
  }

  /** The flattened pixel list `img_array.reshape(-1, 3)` of an image. */
  function Pixels(img: Image): seq<Rgb> {
    Flatten(img.rows)
  }

  /** The flattened list has one entry per pixel: `total_pixels = h * w`. */
  lemma {:induction false} FlattenLength(img: Image)
    requires WellFormed(img)
    ensures |Flatten(img.rows)| == img.height * img.width
  {
    FlattenLengthRows(img.rows, img.width);
  }

  lemma {:induction false} FlattenLengthRows(rows: seq<seq<Rgb>>, w: nat)
    requires forall i :: 0 <= i < |rows| ==> |rows[i]| == w
    ensures |Flatten(rows)| == |rows| * w
  {
    if rows != [] {
      FlattenLengthRows(rows[1..], w);
      assert |rows| * w == w + (|rows| - 1) * w;
    }
  }

  /** Pixel (i, j) of the grid lands at index i * w + j of the flattened list. */
  lemma {:induction false} FlattenAt(rows: seq<seq<Rgb>>, w: nat, i: nat, j: nat)
    requires forall k :: 0 <= k < |rows| ==> |rows[k]| == w
    requires i < |rows| && j < w
    ensures i * w + j < |Flatten(rows)| && Flatten(rows)[i * w + j] == rows[i][j]
  {
    FlattenLengthRows(rows, w);
    if i > 0 {
      FlattenAt(rows[1..], w, i - 1, j);
      assert i * w + j == w + ((i - 1) * w + j);
    }
  }

  /** The ordering of `np.unique(..., axis=0)`: lexicographic on (R, G, B). */
  predicate LexLess(a: Rgb, b: Rgb) {
    a.r < b.r || (a.r == b.r && (a.g < b.g || (a.g == b.g && a.b < b.b)))
  }

  /** The mask of app.py: every channel at or above the white threshold. */
  predicate IsWhite(c: Rgb, threshold: int) {
    c.r >= threshold && c.g >= threshold && c.b >= threshold
  }

  /** How many pixels of `p` are exactly `c`. */
  function Occurrences(p: seq<Rgb>, c: Rgb): nat {
    multiset(p)[c]
  }

  /**
   * The pixels of `p` that are not white, in order: every non-white colour
   * keeps all its occurrences and every white colour loses them all.
   */
  function NonWhitePixels(p: seq<Rgb>, threshold: int): (q: seq<Rgb>)
    ensures forall c :: c in q <==> c in p && !IsWhite(c, threshold)
    ensures forall c :: multiset(q)[c] == if IsWhite(c, threshold) then 0 else multiset(p)[c]
  {
    if p == [] then []
    else
      var last := p[|p| - 1];
      assert p == p[..|p| - 1] + [last];
      NonWhitePixels(p[..|p| - 1], threshold) + (if IsWhite(last, threshold) then [] else [last])
  }

  /** An image whose every pixel is white has no non-white pixel. */
  lemma {:induction false} AllWhiteNoPixels(p: seq<Rgb>, threshold: int)
    requires forall c :: c in p ==> IsWhite(c, threshold)
    ensures NonWhitePixels(p, threshold) == []
  {
    if p != [] {
      var init := p[..|p| - 1];
      assert forall c :: c in init ==> c in p;
      AllWhiteNoPixels(init, threshold);
      assert p[|p| - 1] in p;
    }
  }
}
