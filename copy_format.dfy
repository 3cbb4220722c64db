/**
 * The client-side copy callback of app.py: it collects the selected table
 * rows whose index is in range, writes their colours to the clipboard as a
 * hex list, a Python list of lists or an R vector of vectors, and returns a
 * status message.
 */
module CopyFormat {
  import opened Wrappers
  import opened Colour
  import opened HexCode
  import opened Text
  import opened AppHistogram

  const SelectFirst: string := "请先选择颜色"
  const NoValidRows: string := "没有有效的颜色数据"
  const UnknownFormat: string := "未知的复制格式"

  /** The success message: the number of copied colours and the format name. */
  function CopiedMessage(n: nat, fmt: string): string {
    "已复制 " + Digits(n) + " 种颜色 (" + fmt + ")"
  }

  /**
   * The rows the loop pushes: for each selected index in turn, the row at
   * that index when the index is in range; other indices are skipped.
   */
  function Selection(indices: seq<int>, rows: seq<TableRow>): seq<TableRow> {
    if indices == [] then []
    else
      var k := indices[|indices| - 1];
      Selection(indices[..|indices| - 1], rows) + (if 0 <= k < |rows| then [rows[k]] else [])
  }

  /** Selecting a single index yields its row when it is in range and nothing otherwise. */
  lemma SelectionSingle(k: int, rows: seq<TableRow>)
    ensures 0 <= k < |rows| ==> Selection([k], rows) == [rows[k]]
    ensures !(0 <= k < |rows|) ==> Selection([k], rows) == []
  {
    assert [k][..0] == [];
  }

  /**
   * Selection keeps the order of the selected indices: selecting a
   * concatenation is the concatenation of the selections.
   */
  lemma {:induction false} SelectionAppend(a: seq<int>, b: seq<int>, rows: seq<TableRow>)
    ensures Selection(a + b, rows) == Selection(a, rows) + Selection(b, rows)
    decreases |b|
  {
    if b == [] {
      assert a + b == a;
    } else {
      var b' := b[..|b| - 1];
      assert (a + b)[..|a + b| - 1] == a + b';
      assert (a + b)[|a + b| - 1] == b[|b| - 1];
      SelectionAppend(a, b', rows);
    }
  }

  /** A row is selected exactly when some selected index is in range and points at it. */
  lemma {:induction false} SelectionMembers(indices: seq<int>, rows: seq<TableRow>, row: TableRow)
    ensures row in Selection(indices, rows) <==>
      exists j :: 0 <= j < |indices| && 0 <= indices[j] < |rows| && rows[indices[j]] == row
  {
    if indices != [] {
      var init := indices[..|indices| - 1];
      SelectionMembers(init, rows, row);
      if exists j :: 0 <= j < |indices| && 0 <= indices[j] < |rows| && rows[indices[j]] == row {
        var j :| 0 <= j < |indices| && 0 <= indices[j] < |rows| && rows[indices[j]] == row;
        if j < |indices| - 1 {
          assert init[j] == indices[j];
        }
      }
      if row in Selection(init, rows) {
        var j :| 0 <= j < |init| && 0 <= init[j] < |rows| && rows[init[j]] == row;
        assert indices[j] == init[j];
      }
    }
  }

  /** The selection is empty exactly when no selected index is in range. */
  lemma {:induction false} SelectionEmpty(indices: seq<int>, rows: seq<TableRow>)
    ensures Selection(indices, rows) == [] <==> forall j :: 0 <= j < |indices| ==> !(0 <= indices[j] < |rows|)
  {
    if indices != [] {
      var init := indices[..|indices| - 1];
      SelectionEmpty(init, rows);
      assert forall j :: 0 <= j < |init| ==> init[j] == indices[j];
    }
  }

  /** When every selected index is in range, the selection is the selected rows, one per index. */
  lemma {:induction false} SelectionAllValid(indices: seq<int>, rows: seq<TableRow>)
    requires forall j :: 0 <= j < |indices| ==> 0 <= indices[j] < |rows|
    ensures |Selection(indices, rows)| == |indices|
    ensures forall j :: 0 <= j < |indices| ==> Selection(indices, rows)[j] == rows[indices[j]]
  {
    if indices != [] {
      var init := indices[..|indices| - 1];
      SelectionAllValid(init, rows);
      assert forall j :: 0 <= j < |init| ==> init[j] == indices[j];
    }
  }

  /** `items.map(item => item.Hex)`. */
  function HexValues(items: seq<TableRow>): (hs: seq<string>)
    ensures |hs| == |items|
    ensures forall i :: 0 <= i < |items| ==> hs[i] == items[i].hex
  {
    if items == [] then [] else [items[0].hex] + HexValues(items[1..])
  }

  /** `items.map(item => [item.R, item.G, item.B])`. */
  function Colors(items: seq<TableRow>): (cs: seq<Rgb>)
    ensures |cs| == |items|
    ensures forall i :: 0 <= i < |items| ==> cs[i] == RowColor(items[i])
  {
    if items == [] then [] else [RowColor(items[0])] + Colors(items[1..])
  }

  /** One colour as `open` + its channels joined by `,` + `close`. */
  function Item(c: Rgb, open: string, close: string): string {
    open + TripleText(c, ",") + close
  }

  /** `colors.map(c => open + c.join(',') + close)`. */
  function Bracketed(cs: seq<Rgb>, open: string, close: string): (parts: seq<string>)
    ensures |parts| == |cs|
    ensures forall i :: 0 <= i < |cs| ==> parts[i] == Item(cs[i], open, close)
  {
    if cs == [] then [] else [Item(cs[0], open, close)] + Bracketed(cs[1..], open, close)
  }

  /** The `hex` format: the `Hex` cells joined by `, `. */
  function HexListText(items: seq<TableRow>): string {
    Join(", ", HexValues(items))
  }

  /** The `py` format: `[[r,g,b], [r,g,b]]`. */
  function PyListText(items: seq<TableRow>): string {
    "[" + Join(", ", Bracketed(Colors(items), "[", "]")) + "]"
  }

  /** The `r` format: `c(c(r,g,b),c(r,g,b))`. */
  function RVectorText(items: seq<TableRow>): string {
    "c(" + Join(",", Bracketed(Colors(items), "c(", ")")) + ")"
  }

  /** The clipboard text of a known format; `None` for any other format name. */
  function FormatText(fmt: string, items: seq<TableRow>): (text: Option<string>)
    ensures text.Some? <==> fmt == "hex" || fmt == "py" || fmt == "r"
  {
    if fmt == "hex" then Some(HexListText(items))
    else if fmt == "py" then Some(PyListText(items))
    else if fmt == "r" then Some(RVectorText(items))
    else None
  }

  /** The first guard: no click yet (`0`; a never-clicked button is `None`), or no selection or data. */
  predicate Triggered(nClicks: Option<int>, selected: Option<seq<int>>, data: Option<seq<TableRow>>) {
    nClicks != Some(0) && selected.Some? && data.Some?
  }

  /**
   * The copy callback. `clipboard` is the text written to the clipboard,
   * `None` when nothing is written; `status` is the returned message.
   */
  method CopySelected(nClicks: Option<int>, selected: Option<seq<int>>, data: Option<seq<TableRow>>, fmt: string)
    returns (status: string, clipboard: Option<string>)
    ensures !Triggered(nClicks, selected, data) ==> status == "" && clipboard.None?
    ensures Triggered(nClicks, selected, data) && selected.value == [] ==>
      status == SelectFirst && clipboard.None?
    ensures Triggered(nClicks, selected, data) && selected.value != [] && Selection(selected.value, data.value) == [] ==>
      status == NoValidRows && clipboard.None?
    ensures Triggered(nClicks, selected, data) && Selection(selected.value, data.value) != [] ==>
      && clipboard == FormatText(fmt, Selection(selected.value, data.value))
      && status == (if clipboard.None? then UnknownFormat
                    else CopiedMessage(|Selection(selected.value, data.value)|, fmt))
  {
    if nClicks == Some(0) || selected.None? || data.None? {
      return "", None;
    }
    var indices, rows := selected.value, data.value;
    if indices == [] {
      return SelectFirst, None;
    }
    var items: seq<TableRow> := [];
    var i := 0;
    while i < |indices|
      invariant 0 <= i <= |indices|
      invariant items == Selection(indices[..i], rows)
    {
      var rowIndex := indices[i];
      assert indices[..i + 1][..i] == indices[..i];
      if 0 <= rowIndex < |rows| {
        items := items + [rows[rowIndex]];
      }
      i := i + 1;
    }
    assert indices[..i] == indices;
    if items == [] {
      return NoValidRows, None;
    }
    var text: string;
    if fmt == "hex" {
      text := Join(", ", HexValues(items));
    } else if fmt == "py" {
      text := "[" + Join(", ", Bracketed(Colors(items), "[", "]")) + "]";
    } else if fmt == "r" {
      var inner := Join(",", Bracketed(Colors(items), "c(", ")"));
      text := "c(" + inner + ")";
    } else {
      return UnknownFormat, None;
    }
    status, clipboard := CopiedMessage(|items|, fmt), Some(text);
  }

  /** Reads a `hex` format text back into its colours. */
  function ParseHexList(s: string): Option<seq<Rgb>>
    decreases |s|
  {
    if |s| < 7 then None
    else
      match ParseHex(s[..7])
      case None => None
      case Some(c) =>
        if s[7..] == "" then Some([c])
        else
          match Expect(", ", s[7..])
          case None => None
          case Some(rest) =>
            match ParseHexList(rest)
            case None => None
            case Some(cs) => Some([c] + cs)
  }

  /** Reads one colour written as `open` + three decimal channels separated by `,` + `close`. */
  function ParseItem(s: string, open: string, close: string): (r: Option<(Rgb, string)>)
    ensures r.Some? ==> |r.value.1| < |s|
  {
    match Expect(open, s)
    case None => None
    case Some(s1) =>
      match ParseTriple(s1, ",")
      case None => None
      case Some((c, s2)) =>
        match Expect(close, s2)
        case None => None
        case Some(s3) => Some((c, s3))
  }

  /** Reads one item of the `py` format, `[r,g,b]`. */
  function PyItem(s: string): Option<(Rgb, string)> {
    ParseItem(s, "[", "]")
  }

  /** Reads one item of the `r` format, `c(r,g,b)`. */
  function RItem(s: string): Option<(Rgb, string)> {
    ParseItem(s, "c(", ")")
  }

  /**
   * Reads `item sep item ... sep item end`, each item as `item` reads it;
   * an item reader that consumes nothing makes the text unreadable.
   */
  function ParseItems(s: string, item: string -> Option<(Rgb, string)>, sep: string, end: string): Option<seq<Rgb>>
    decreases |s|
  {
    match item(s)
    case None => None
    case Some((c, rest)) =>
      if |rest| >= |s| then None
      else if rest == end then Some([c])
      else
        match Expect(sep, rest)
        case None => None
        case Some(rest') =>
          match ParseItems(rest', item, sep, end)
          case None => None
          case Some(cs) => Some([c] + cs)
  }

  /** Reads a `py` format text back into its colours. */
  function ParsePyList(s: string): Option<seq<Rgb>> {
    match Expect("[", s)
    case None => None
    case Some(s1) => ParseItems(s1, PyItem, ", ", "]")
  }

  /** Reads an `r` format text back into its colours. */
  function ParseRVector(s: string): Option<seq<Rgb>> {
    match Expect("c(", s)
    case None => None
    case Some(s1) => ParseItems(s1, RItem, ",", ")")
  }

  /** A single hex label reads back to its colour. */
  lemma ParseHexListOne(c: Rgb)
    ensures ParseHexList(HexOf(c)) == Some([c])
  {
    var h := HexOf(c);
    HexRoundTrip(c);
    assert h[..7] == h && h[7..] == "";
  }

  /** One more hex label in front: the reader takes its colour and goes on after `, `. */
  lemma ParseHexListCons(c: Rgb, tail: string, cs: seq<Rgb>)
    requires ParseHexList(tail) == Some(cs)
    ensures ParseHexList(HexOf(c) + (", " + tail)) == Some([c] + cs)
  {
    var h := HexOf(c);
    HexRoundTrip(c);
    var s := h + (", " + tail);
    assert s[..7] == h && s[7..] == ", " + tail;
    ExpectOf(", ", tail);
  }

  /** A non-empty `hex` list of consistent rows reads back to the rows' colours. */
  lemma {:induction false} HexListRoundTrip(items: seq<TableRow>)
    requires items != []
    requires forall i :: 0 <= i < |items| ==> ConsistentRow(items[i])
    ensures ParseHexList(HexListText(items)) == Some(Colors(items))
    decreases |items|
  {
    var c := RowColor(items[0]);
    var parts := HexValues(items);
    assert parts[0] == HexOf(c) by {
      assert ConsistentRow(items[0]);
    }
    if |items| == 1 {
      assert HexListText(items) == HexOf(c);
      ParseHexListOne(c);
      assert Colors(items) == [c];
    } else {
      var rest := items[1..];
      assert parts[1..] == HexValues(rest);
      assert HexListText(items) == HexOf(c) + (", " + HexListText(rest));
      HexListRoundTrip(rest);
      ParseHexListCons(c, HexListText(rest), Colors(rest));
      assert Colors(items) == [c] + Colors(rest);
    }
  }

  lemma ParseItemOf(c: Rgb, open: string, close: string, t: string)
    requires close != [] && !IsDigit(close[0])
    ensures ParseItem(Item(c, open, close) + t, open, close) == Some((c, t))
  {
    var body := TripleText(c, ",");
    assert Item(c, open, close) + t == open + (body + (close + t));
    ExpectOf(open, body + (close + t));
    ParseTripleOf(c, ",", close + t);
    ExpectOf(close, t);
  }

  /** One more item in front: the reader takes its colour and goes on after `sep`. */
  lemma ParseItemsCons(s: string, cs: seq<Rgb>, item: string -> Option<(Rgb, string)>, sep: string, end: string, tail: string)
    requires cs != [] && sep != [] && |tail| >= |end| && |sep + tail| < |s|
    requires item(s) == Some((cs[0], sep + tail))
    requires ParseItems(tail, item, sep, end) == Some(cs[1..])
    ensures ParseItems(s, item, sep, end) == Some(cs)
  {
    assert sep + tail != end;
    ExpectOf(sep, tail);
    assert cs == [cs[0]] + cs[1..];
  }

  /**
   * Non-empty item texts joined by `sep` and followed by `end` read back to
   * their colours, whatever the item texts are, as long as `item` reads
   * each of them as its colour whatever follows it.
   */
  lemma {:induction false} JoinedItemsRoundTrip(parts: seq<string>, cs: seq<Rgb>, item: string -> Option<(Rgb, string)>, sep: string, end: string)
    requires |parts| == |cs| > 0 && sep != []
    requires forall i :: 0 <= i < |parts| ==> parts[i] != []
    requires forall i, t :: 0 <= i < |parts| ==> item(parts[i] + t) == Some((cs[i], t))
    ensures ParseItems(Join(sep, parts) + end, item, sep, end) == Some(cs)
    decreases |parts|
  {
    if |parts| == 1 {
      assert item(parts[0] + end) == Some((cs[0], end));
      assert cs == [cs[0]];
    } else {
      forall i, t | 0 <= i < |parts[1..]|
        ensures item(parts[1..][i] + t) == Some((cs[1..][i], t))
      {
        assert item(parts[i + 1] + t) == Some((cs[i + 1], t));
      }
      JoinedItemsRoundTrip(parts[1..], cs[1..], item, sep, end);
      var tail := Join(sep, parts[1..]) + end;
      JoinSplit(sep, parts, end);
      assert item(parts[0] + (sep + tail)) == Some((cs[0], sep + tail));
      ParseItemsCons(Join(sep, parts) + end, cs, item, sep, end, tail);
    }
  }

  /** A non-empty `py` list reads back to the rows' colours. */
  lemma PyListRoundTrip(items: seq<TableRow>)
    requires items != []
    ensures ParsePyList(PyListText(items)) == Some(Colors(items))
  {
    var cs := Colors(items);
    var parts := Bracketed(cs, "[", "]");
    forall i, t | 0 <= i < |parts|
      ensures PyItem(parts[i] + t) == Some((cs[i], t))
    {
      ParseItemOf(cs[i], "[", "]", t);
    }
    var inner := Join(", ", parts);
    assert PyListText(items) == "[" + (inner + "]");
    ExpectOf("[", inner + "]");
    JoinedItemsRoundTrip(parts, cs, PyItem, ", ", "]");
  }

  /** A non-empty `r` vector reads back to the rows' colours. */
  lemma RVectorRoundTrip(items: seq<TableRow>)
    requires items != []
    ensures ParseRVector(RVectorText(items)) == Some(Colors(items))
  {
    var cs := Colors(items);
    var parts := Bracketed(cs, "c(", ")");
    forall i, t | 0 <= i < |parts|
      ensures RItem(parts[i] + t) == Some((cs[i], t))
    {
      ParseItemOf(cs[i], "c(", ")", t);
    }
    var inner := Join(",", parts);
    assert RVectorText(items) == "c(" + (inner + ")");
    ExpectOf("c(", inner + ")");
    JoinedItemsRoundTrip(parts, cs, RItem, ",", ")");
  }

  /**
   * Copying from the table app.py shows: the clipboard text of each format
   * reads back to exactly the colours of the in-range selected rows, in
   * selection order.
   */
  lemma CopyFromTable(img: Image, pctThreshold: real, whiteThreshold: int, indices: seq<int>)
    requires WellFormed(img)
    requires ResultArea(img, pctThreshold, whiteThreshold).Shown?
    requires Selection(indices, ResultArea(img, pctThreshold, whiteThreshold).table) != []
    ensures ParseHexList(HexListText(Selection(indices, ResultArea(img, pctThreshold, whiteThreshold).table)))
      == Some(Colors(Selection(indices, ResultArea(img, pctThreshold, whiteThreshold).table)))
    ensures ParsePyList(PyListText(Selection(indices, ResultArea(img, pctThreshold, whiteThreshold).table)))
      == Some(Colors(Selection(indices, ResultArea(img, pctThreshold, whiteThreshold).table)))
    ensures ParseRVector(RVectorText(Selection(indices, ResultArea(img, pctThreshold, whiteThreshold).table)))
      == Some(Colors(Selection(indices, ResultArea(img, pctThreshold, whiteThreshold).table)))
  {
    var table := ResultArea(img, pctThreshold, whiteThreshold).table;
    var items := Selection(indices, table);
    TableRowsCorrect(img, pctThreshold, whiteThreshold);
    forall i | 0 <= i < |items|
      ensures ConsistentRow(items[i])
    {
      assert items[i] in items;
      SelectionMembers(indices, table, items[i]);
    }
    HexListRoundTrip(items);
    PyListRoundTrip(items);
    RVectorRoundTrip(items);
  }
}
