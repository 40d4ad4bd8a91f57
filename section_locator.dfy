/** The part of the explorer's load_and_prepare_data that finds the data:
    skip the preamble rows, find the "BENEFIT ITEMS" anchor, take the header
    row below it and the data region below that, then drop the rows flagged
    as quotes. A frame is a sequence of rows and the number of columns of
    the sheet; every row has that many cells, those it does not store being
    missing. */
module SectionLocator {
  import opened Cells

  /** Rows before this position are a preamble (DATA_START_ROW). */
  const DataStartRow: nat := 24

  const AnchorText: string := "BENEFIT ITEMS"

  const QuoteMarker: string := "is_quote"

  /** The columns renamed ItemID, ItemName and ItemType, which the quote
      column search skips. */
  const IdentityColumns: nat := 3

  /** What load_and_prepare_data returns on success: the data region and,
      when an anchor was found, the header row. */
  datatype Prepared = Prepared(rows: seq<Row>, header: Option<Row>)

  /** df_full.iloc[n:]: the rows from position n on. */
  function Drop(rows: seq<Row>, n: nat): (r: seq<Row>)
    ensures |r| == if n <= |rows| then |rows| - n else 0
    ensures forall i :: 0 <= i < |r| ==> r[i] == rows[n + i]
  {
    if n <= |rows| then rows[n..] else []
  }

  /** df.iloc[:n]: the first n rows, or all of them when there are fewer. */
  function Take(rows: seq<Row>, n: nat): (r: seq<Row>)
    ensures |r| == if n <= |rows| then n else |rows|
    ensures r == rows[..|r|]
  {
    if n <= |rows| then rows[..n] else rows
  }

  /** A string cell containing the anchor text (case-sensitive). */
  predicate IsAnchorCell(c: Cell)
  {
    c.Text? && Contains(c.s, AnchorText)
  }

  predicate IsAnchorRow(row: Row, width: nat)
  {
    exists c :: 0 <= c < width && IsAnchorCell(CellAt(row, c))
  }

  /** row.isnull().all(): every cell of the row is missing. */
  predicate IsBlankRow(row: Row, width: nat)
  {
    forall c :: 0 <= c < width ==> CellAt(row, c).Blank?
  }

  /** The position of the first anchor row. */
  function FirstAnchor(rows: seq<Row>, width: nat): (r: Option<nat>)
    ensures r.Some? ==> r.value < |rows| && IsAnchorRow(rows[r.value], width)
    ensures r.Some? ==> forall k :: 0 <= k < r.value ==> !IsAnchorRow(rows[k], width)
    ensures r.None? ==> forall k :: 0 <= k < |rows| ==> !IsAnchorRow(rows[k], width)
  {
    if rows == [] then None
    else if IsAnchorRow(rows[0], width) then Some(0)
    else match FirstAnchor(rows[1..], width)
      case None => None
      case Some(k) => Some(k + 1)
  }

  /** The position of the first all-missing row. */
  function FirstBlank(rows: seq<Row>, width: nat): (r: Option<nat>)
    ensures r.Some? ==> r.value < |rows| && IsBlankRow(rows[r.value], width)
    ensures r.Some? ==> forall k :: 0 <= k < r.value ==> !IsBlankRow(rows[k], width)
    ensures r.None? ==> forall k :: 0 <= k < |rows| ==> !IsBlankRow(rows[k], width)
  {
    if rows == [] then None
    else if IsBlankRow(rows[0], width) then Some(0)
    else match FirstBlank(rows[1..], width)
      case None => None
      case Some(k) => Some(k + 1)
  }

  /** The anchor scan: rows in order, the cells of each row in order, stopping
      at the first string cell that contains the anchor text; -1 when there
      is none. */
  method FindAnchorRow(df: seq<Row>, width: nat) returns (benefitRow: int)
    ensures FirstAnchor(df, width).None? ==> benefitRow == -1
    ensures FirstAnchor(df, width).Some? ==> benefitRow == FirstAnchor(df, width).value
  {
    benefitRow := -1;
    var index := 0;
    while index < |df|
      invariant 0 <= index <= |df|
      invariant benefitRow == -1
      invariant forall k :: 0 <= k < index ==> !IsAnchorRow(df[k], width)
    {
      var col := 0;
      while col < width
        invariant 0 <= col <= width
        invariant forall c :: 0 <= c < col ==> !IsAnchorCell(CellAt(df[index], c))
      {
        var value := CellAt(df[index], col);
        if value.Text? && Contains(value.s, AnchorText) {
          benefitRow := index;
          break;
        }
        col := col + 1;
      }
      if benefitRow >= 0 {
        FirstAnchorAt(df, width, index);
        return;
      }
      index := index + 1;
    }
  }

  /** The first row that holds the property, with none before it, is where
      FirstAnchor stops. */
  lemma {:induction false} FirstAnchorAt(rows: seq<Row>, width: nat, b: nat)
    requires b < |rows| && IsAnchorRow(rows[b], width)
    requires forall k :: 0 <= k < b ==> !IsAnchorRow(rows[k], width)
    ensures FirstAnchor(rows, width) == Some(b)
  {
    if b > 0 {
      assert rows[1..][b - 1] == rows[b];
      FirstAnchorAt(rows[1..], width, b - 1);
    }
  }

  /** The blank-row scan over the data slice, whose rows still carry their
      labels firstLabel, firstLabel + 1, ...: the label of the first
      all-missing row, -1 when there is none. */
  method FindBlankRow(df: seq<Row>, width: nat, firstLabel: nat) returns (blankRow: int)
    ensures FirstBlank(df, width).None? ==> blankRow == -1
    ensures FirstBlank(df, width).Some? ==> blankRow == firstLabel + FirstBlank(df, width).value
  {
    blankRow := -1;
    var index := 0;
    while index < |df|
      invariant 0 <= index <= |df|
      invariant forall k :: 0 <= k < index ==> !IsBlankRow(df[k], width)
    {
      if IsBlankRow(df[index], width) {
        FirstBlankAt(df, width, index);
        blankRow := firstLabel + index;
        return;
      }
      index := index + 1;
    }
  }

  lemma {:induction false} FirstBlankAt(rows: seq<Row>, width: nat, k: nat)
    requires k < |rows| && IsBlankRow(rows[k], width)
    requires forall j :: 0 <= j < k ==> !IsBlankRow(rows[j], width)
    ensures FirstBlank(rows, width) == Some(k)
  {
    if k > 0 {
      assert rows[1..][k - 1] == rows[k];
      FirstBlankAt(rows[1..], width, k - 1);
    }
  }

  /** The data region as the code cuts it: the blank row's label counts from
      the start of the post-preamble frame, but it is used as a position in
      the slice that starts dataStart rows later, so the cut lands dataStart
      rows past the blank row (or at the end). */
  function RegionAsWritten(sliced: seq<Row>, width: nat, dataStart: nat): (r: seq<Row>)
    ensures FirstBlank(sliced, width).None? ==> r == sliced
    ensures FirstBlank(sliced, width).Some? ==>
              r == Take(sliced, dataStart + FirstBlank(sliced, width).value)
  {
    match FirstBlank(sliced, width)
    case None => sliced
    case Some(k) => Take(sliced, dataStart + k)
  }

  /** The data region as evidently intended: everything before the first
      all-missing row. */
  function Region(sliced: seq<Row>, width: nat): (r: seq<Row>)
    ensures |r| <= |sliced| && r == sliced[..|r|]
    ensures forall k :: 0 <= k < |r| ==> !IsBlankRow(r[k], width)
    ensures |r| < |sliced| ==> IsBlankRow(sliced[|r|], width)
  {
    match FirstBlank(sliced, width)
    case None => sliced
    case Some(k) => sliced[..k]
  }

  /** The as-written cut keeps the intended region and never less. */
  lemma RegionAsWrittenExtendsRegion(sliced: seq<Row>, width: nat, dataStart: nat)
    ensures |Region(sliced, width)| <= |RegionAsWritten(sliced, width, dataStart)|
    ensures Region(sliced, width) == RegionAsWritten(sliced, width, dataStart)[..|Region(sliced, width)|]
  {
  }

  /** With the anchor in the first row, a blank row right after the header
      and one more data row, the code keeps the blank row and the row after
      it, where the intended region is empty. */
  lemma RegionOvershoots()
    ensures var blank: Row := [];
            var data: Row := [Text("x")];
            RegionAsWritten([blank, data], 1, 2) == [blank, data] && Region([blank, data], 1) == []
  {
    var blank: Row := [];
    var data: Row := [Text("x")];
    assert IsBlankRow(blank, 1);
    assert FirstBlank([blank, data], 1) == Some(0);
  }

  /** The section as load_and_prepare_data cuts it from the post-preamble
      rows: None where df.iloc[header_row_index] raises because the anchor
      is the last row. */
  function Section(post: seq<Row>, width: nat): Option<Prepared>
  {
    match FirstAnchor(post, width)
    case None => Some(Prepared(post, None))
    case Some(b) =>
      if b + 1 < |post| then Some(Prepared(RegionAsWritten(post[b + 2..], width, b + 2), Some(post[b + 1])))
      else None
  }

  /** The same with the evidently intended cut at the first blank row. */
  function SectionIntended(post: seq<Row>, width: nat): Option<Prepared>
  {
    match FirstAnchor(post, width)
    case None => Some(Prepared(post, None))
    case Some(b) =>
      if b + 1 < |post| then Some(Prepared(Region(post[b + 2..], width), Some(post[b + 1])))
      else None
  }

  /** Without an anchor every post-preamble row is data and there is no header. */
  lemma SectionWithoutAnchor(post: seq<Row>, width: nat)
    requires forall k :: 0 <= k < |post| ==> !IsAnchorRow(post[k], width)
    ensures Section(post, width) == Some(Prepared(post, None))
    ensures SectionIntended(post, width) == Some(Prepared(post, None))
  {
  }

  /** With an anchor followed by at least one row, the header is the row after
      the first anchor and the data is a positional prefix of the rows after
      the header; with no blank row below, it is all of them. A trailing
      anchor has no header row, which the code fails on. */
  lemma SectionWithAnchor(post: seq<Row>, width: nat, b: nat)
    requires b < |post| && IsAnchorRow(post[b], width)
    requires forall k :: 0 <= k < b ==> !IsAnchorRow(post[k], width)
    ensures b + 1 == |post| ==> Section(post, width).None?
    ensures b + 1 < |post| ==>
              && Section(post, width).Some?
              && Section(post, width).value.header == Some(post[b + 1])
              && var data := Section(post, width).value.rows;
                 && |data| <= |post| - (b + 2)
                 && data == post[b + 2..][..|data|]
                 && (FirstBlank(post[b + 2..], width).None? ==> data == post[b + 2..])
    ensures b + 1 < |post| ==>
              && SectionIntended(post, width) == Some(Prepared(Region(post[b + 2..], width), Some(post[b + 1])))
  {
    FirstAnchorAt(post, width, b);
  }

  /** Some cell of the column, lower-cased, contains the needle. */
  predicate ColumnMentions(rows: seq<Row>, col: nat, needle: string)
  {
    exists r :: 0 <= r < |rows| && Contains(Lower(Str(CellAt(rows[r], col))), needle)
  }

  /** The is_quote flag column: the column after the first non-identity
      column that mentions the marker, if that next column exists. */
  function QuoteColumn(rows: seq<Row>, width: nat): (r: Option<nat>)
    ensures r.Some? ==> IdentityColumns + 1 <= r.value < width && ColumnMentions(rows, r.value - 1, QuoteMarker)
    ensures r.Some? ==> forall c :: IdentityColumns <= c < r.value - 1 ==> !ColumnMentions(rows, c, QuoteMarker)
    ensures r.None? ==> forall c :: IdentityColumns <= c < width - 1 ==> !ColumnMentions(rows, c, QuoteMarker)
  {
    QuoteColumnFrom(rows, width, IdentityColumns)
  }

  function QuoteColumnFrom(rows: seq<Row>, width: nat, from: nat): (r: Option<nat>)
    ensures r.Some? ==> from + 1 <= r.value < width && ColumnMentions(rows, r.value - 1, QuoteMarker)
    ensures r.Some? ==> forall c :: from <= c < r.value - 1 ==> !ColumnMentions(rows, c, QuoteMarker)
    ensures r.None? ==> forall c :: from <= c < width - 1 ==> !ColumnMentions(rows, c, QuoteMarker)
    decreases width - from
  {
    if from >= width then None
    else if ColumnMentions(rows, from, QuoteMarker) && from + 1 < width then Some(from + 1)
    else QuoteColumnFrom(rows, width, from + 1)
  }

  /** The column search: each non-identity column in turn, stopping at the
      first that mentions the marker and has a next column. */
  method FindQuoteColumn(df: seq<Row>, width: nat) returns (isQuoteCol: Option<nat>)
    ensures isQuoteCol == QuoteColumn(df, width)
  {
    isQuoteCol := None;
    var col := IdentityColumns;
    while col < width
      invariant IdentityColumns <= col
      invariant QuoteColumnFrom(df, width, IdentityColumns) == QuoteColumnFrom(df, width, col)
      decreases width - col
    {
      var mentions := exists r :: 0 <= r < |df| && Contains(Lower(Str(CellAt(df[r], col))), QuoteMarker);
      if mentions {
        var nextCol := col + 1;
        if nextCol < width {
          isQuoteCol := Some(nextCol);
          return;
        }
      }
      col := col + 1;
    }
  }

  /** A row whose flag cell reads exactly "1". */
  predicate IsQuoteRow(row: Row, col: nat)
  {
    Str(CellAt(row, col)) == "1"
  }

  /** df[df[is_quote_col].astype(str) != '1']: the rows that are not quotes, in order. */
  function DropQuotes(rows: seq<Row>, col: nat): (r: seq<Row>)
    ensures |r| <= |rows|
    ensures forall k :: 0 <= k < |r| ==> !IsQuoteRow(r[k], col)
  {
    if rows == [] then []
    else (if IsQuoteRow(rows[0], col) then [] else [rows[0]]) + DropQuotes(rows[1..], col)
  }

  /** Filtering a concatenation is filtering each part: with the one-row case
      this fixes the result as the non-quote rows in their original order. */
  lemma {:induction false} DropQuotesAppend(a: seq<Row>, b: seq<Row>, col: nat)
    ensures DropQuotes(a + b, col) == DropQuotes(a, col) + DropQuotes(b, col)
  {
    if a == [] {
      assert a + b == b;
    } else {
      assert (a + b)[0] == a[0];
      assert (a + b)[1..] == a[1..] + b;
      DropQuotesAppend(a[1..], b, col);
    }
  }

  /** The filter only removes rows: each row is kept at most as often as it
      occurs, so every kept row is an input row. */
  lemma {:induction false} DropQuotesSubset(rows: seq<Row>, col: nat)
    ensures multiset(DropQuotes(rows, col)) <= multiset(rows)
  {
    if rows != [] {
      var rest := DropQuotes(rows[1..], col);
      DropQuotesSubset(rows[1..], col);
      assert rows == [rows[0]] + rows[1..];
      if IsQuoteRow(rows[0], col) {
        assert DropQuotes(rows, col) == [] + rest;
      } else {
        assert DropQuotes(rows, col) == [rows[0]] + rest;
      }
    }
  }

  /** Every row that is not a quote is kept. */
  lemma {:induction false} DropQuotesKeeps(rows: seq<Row>, col: nat, k: nat)
    requires k < |rows| && !IsQuoteRow(rows[k], col)
    ensures rows[k] in DropQuotes(rows, col)
  {
    if k > 0 {
      assert rows[1..][k - 1] == rows[k];
      DropQuotesKeeps(rows[1..], col, k - 1);
    }
  }

  /** The quote filter: nothing when no flag column was found. */
  function FilterQuotes(rows: seq<Row>, width: nat): seq<Row>
  {
    match QuoteColumn(rows, width)
    case None => rows
    case Some(c) => DropQuotes(rows, c)
  }

  /** load_and_prepare_data after the file has been read into rows of the
      given width: None where the code raises. */
  function Prepare(rows: seq<Row>, width: nat): Option<Prepared>
  {
    match Section(Drop(rows, DataStartRow), width)
    case None => None
    case Some(p) => Some(Prepared(FilterQuotes(p.rows, width), p.header))
  }

  /** The same with the data region cut at the first blank row. */
  function PrepareIntended(rows: seq<Row>, width: nat): Option<Prepared>
  {
    match SectionIntended(Drop(rows, DataStartRow), width)
    case None => None
    case Some(p) => Some(Prepared(FilterQuotes(p.rows, width), p.header))
  }

  /** The steps of load_and_prepare_data in the order the code runs them. */
  method LoadAndPrepare(rows: seq<Row>, width: nat) returns (result: Option<Prepared>)
    ensures result == Prepare(rows, width)
  {
    var df := Drop(rows, DataStartRow);
    var headers: Option<Row> := None;
    var benefitRow := FindAnchorRow(df, width);
    if benefitRow >= 0 {
      var headerRowIndex := benefitRow + 1;
      var dataStartIndex := benefitRow + 2;
      if headerRowIndex >= |df| {
        return None;
      }
      headers := Some(df[headerRowIndex]);
      df := df[dataStartIndex..];
      var blankRow := FindBlankRow(df, width, dataStartIndex);
      if blankRow >= 0 {
        df := Take(df, blankRow);
      }
    }
    assert Section(Drop(rows, DataStartRow), width) == Some(Prepared(df, headers));
    var isQuoteCol := FindQuoteColumn(df, width);
    if isQuoteCol.Some? {
      df := DropQuotes(df, isQuoteCol.value);
    }
    result := Some(Prepared(df, headers));
  }

  /** No quote column, no rows removed; otherwise the kept rows are exactly
      the non-quote rows, none of them is a quote, and none is added. */
  lemma FilterQuotesSpec(rows: seq<Row>, width: nat)
    ensures QuoteColumn(rows, width).None? ==> FilterQuotes(rows, width) == rows
    ensures QuoteColumn(rows, width).Some? ==>
              var c := QuoteColumn(rows, width).value;
              && (forall k :: 0 <= k < |FilterQuotes(rows, width)| ==> !IsQuoteRow(FilterQuotes(rows, width)[k], c))
              && (forall k :: 0 <= k < |rows| && !IsQuoteRow(rows[k], c) ==> rows[k] in FilterQuotes(rows, width))
              && multiset(FilterQuotes(rows, width)) <= multiset(rows)
  {
    if QuoteColumn(rows, width).Some? {
      var c := QuoteColumn(rows, width).value;
      DropQuotesSubset(rows, c);
      forall k | 0 <= k < |rows| && !IsQuoteRow(rows[k], c)
        ensures rows[k] in FilterQuotes(rows, width)
      {
        DropQuotesKeeps(rows, c, k);
      }
    }
  }
}
