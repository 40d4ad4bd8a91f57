/** The column detection at the start of build_relationship_graph: which
    columns hold id_item, id_event, display_group and item_name, found first
    by exact header names, then by header substrings, then by looking at the
    first data row. */
module SchemaDetector {
  import opened Cells

  /** The four detected column indices (None where not found). */
  datatype Schema = Schema(idItem: Option<nat>, idEvent: Option<nat>, displayGroup: Option<nat>, itemName: Option<nat>)

  const Unset: Schema := Schema(None, None, None, None)

  /** The data row scan looks at no more than this many columns. */
  const PatternColumns: nat := 30

  const GroupWords: seq<string> := ["calculation", "input", "benefit", "service", "rate"]

  datatype Field = IdItem | IdEvent | DisplayGroup | ItemName

  function Col(s: Schema, f: Field): Option<nat>
  {
    match f
    case IdItem => s.idItem
    case IdEvent => s.idEvent
    case DisplayGroup => s.displayGroup
    case ItemName => s.itemName
  }

  /** The exact header name of each field. */
  function ExactName(f: Field): string
  {
    match f
    case IdItem => "id_item"
    case IdEvent => "id_event"
    case DisplayGroup => "display_group"
    case ItemName => "item_name"
  }

  /** The substring test of the second tier; the group column also answers
      to plain "group". */
  predicate PartialMatch(f: Field, key: string)
  {
    Contains(key, ExactName(f)) || (f == DisplayGroup && Contains(key, "group"))
  }

  /** all([...]) on the four indices: every one found and none at column 0. */
  predicate AllFound(s: Schema)
  {
    Truthy(s.idItem) && Truthy(s.idEvent) && Truthy(s.displayGroup) && Truthy(s.itemName)
  }

  /** str(header).lower().strip() for a header that is present. */
  function HeaderKey(h: Cell): Option<string>
  {
    if h.Blank? then None else Some(Strip(Lower(Str(h))))
  }

  /** The keys of a header row's first width cells. The tiers below are
      folds over these keys, so that their proofs never look inside a key. */
  function HeaderKeys(header: Row, width: nat): (keys: seq<Option<string>>)
    ensures |keys| == width
  {
    seq(width, c requires 0 <= c < width => HeaderKey(CellAt(header, c)))
  }

  /** The key of column c, None outside the keys. */
  function KeyAt(keys: seq<Option<string>>, c: nat): Option<string>
  {
    if c < |keys| then keys[c] else None
  }

  predicate HasKey(keys: seq<Option<string>>, c: nat, key: string)
  {
    KeyAt(keys, c) == Some(key)
  }

  // ---------------------------------------------------------------- exact tier

  /** One header of the exact tier: the if/elif on the four names. */
  function ExactStep(s: Schema, c: nat, key: string): (r: Schema)
  {
    if key == "id_item" then s.(idItem := Some(c))
    else if key == "id_event" then s.(idEvent := Some(c))
    else if key == "display_group" then s.(displayGroup := Some(c))
    else if key == "item_name" then s.(itemName := Some(c))
    else s
  }

  /** The exact tier over the first n headers. */
  function ExactUpTo(keys: seq<Option<string>>, n: nat): Schema
  {
    if n == 0 then Unset
    else match KeyAt(keys, n - 1)
      case None => ExactUpTo(keys, n - 1)
      case Some(key) => ExactStep(ExactUpTo(keys, n - 1), n - 1, key)
  }

  lemma ExactStepField(s: Schema, c: nat, key: string, f: Field)
    ensures Col(ExactStep(s, c, key), f) == if key == ExactName(f) then Some(c) else Col(s, f)
  {
  }

  /** Each field ends at the LAST header with exactly its name, or None when
      there is none. */
  lemma {:induction false} ExactLastMatch(keys: seq<Option<string>>, n: nat, f: Field)
    ensures Col(ExactUpTo(keys, n), f).Some? ==>
              var c := Col(ExactUpTo(keys, n), f).value;
              && c < n && HasKey(keys, c, ExactName(f))
              && forall c' :: c < c' < n ==> !HasKey(keys, c', ExactName(f))
    ensures Col(ExactUpTo(keys, n), f).None? ==>
              forall c :: 0 <= c < n ==> !HasKey(keys, c, ExactName(f))
  {
    if n > 0 {
      ExactLastMatch(keys, n - 1, f);
      match KeyAt(keys, n - 1)
      case None =>
      case Some(key) =>
        ExactStepField(ExactUpTo(keys, n - 1), n - 1, key, f);
    }
  }

  /** The exact-tier loop. */
  method DetectExact(header: Row, width: nat) returns (s: Schema)
    ensures s == ExactUpTo(HeaderKeys(header, width), width)
  {
    s := Unset;
    var colIdx := 0;
    while colIdx < width
      invariant colIdx <= width
      invariant s == ExactUpTo(HeaderKeys(header, width), colIdx)
    {
      var h := CellAt(header, colIdx);
      if !h.Blank? {
        var headerStr := Strip(Lower(Str(h)));
        if headerStr == "id_item" {
          s := s.(idItem := Some(colIdx));
        } else if headerStr == "id_event" {
          s := s.(idEvent := Some(colIdx));
        } else if headerStr == "display_group" {
          s := s.(displayGroup := Some(colIdx));
        } else if headerStr == "item_name" {
          s := s.(itemName := Some(colIdx));
        }
      }
      colIdx := colIdx + 1;
    }
  }

  // -------------------------------------------------------------- partial tier

  /** One header of the substring tier: the first field, in the order
      id_item, id_event, display_group, item_name, that is still None and
      whose substring the header contains. */
  function PartialStep(s: Schema, c: nat, key: string): Schema
  {
    if s.idItem.None? && Contains(key, "id_item") then s.(idItem := Some(c))
    else if s.idEvent.None? && Contains(key, "id_event") then s.(idEvent := Some(c))
    else if s.displayGroup.None? && (Contains(key, "display_group") || Contains(key, "group")) then
      s.(displayGroup := Some(c))
    else if s.itemName.None? && Contains(key, "item_name") then s.(itemName := Some(c))
    else s
  }

  /** The substring tier over the first n headers, from the exact tier's result. */
  function PartialUpTo(s0: Schema, keys: seq<Option<string>>, n: nat): Schema
  {
    if n == 0 then s0
    else match KeyAt(keys, n - 1)
      case None => PartialUpTo(s0, keys, n - 1)
      case Some(key) => PartialStep(PartialUpTo(s0, keys, n - 1), n - 1, key)
  }

  /** A header changes at most one field, only one that was None, and only to
      its own column when it contains that field's substring. */
  lemma PartialStepChanges(s: Schema, c: nat, key: string, f: Field, f': Field)
    ensures Col(PartialStep(s, c, key), f) != Col(s, f) ==>
              Col(s, f).None? && Col(PartialStep(s, c, key), f) == Some(c) && PartialMatch(f, key)
    ensures Col(PartialStep(s, c, key), f) != Col(s, f) && Col(PartialStep(s, c, key), f') != Col(s, f') ==> f == f'
  {
  }

  /** The substring tier never overrides a column already found, and a column
      it finds is one whose header contains the field's substring. */
  lemma {:induction false} PartialFillsOnlyMissing(s0: Schema, keys: seq<Option<string>>, n: nat, f: Field)
    ensures Col(s0, f).Some? ==> Col(PartialUpTo(s0, keys, n), f) == Col(s0, f)
    ensures Col(s0, f).None? && Col(PartialUpTo(s0, keys, n), f).Some? ==>
              var c := Col(PartialUpTo(s0, keys, n), f).value;
              c < n && KeyAt(keys, c).Some? && PartialMatch(f, KeyAt(keys, c).value)
  {
    if n > 0 {
      PartialFillsOnlyMissing(s0, keys, n - 1, f);
      match KeyAt(keys, n - 1)
      case None =>
      case Some(key) =>
        PartialStepChanges(PartialUpTo(s0, keys, n - 1), n - 1, key, f, f);
    }
  }

  /** The place of a field in the substring tier's elif chain. */
  function Rank(f: Field): nat
  {
    match f
    case IdItem => 0
    case IdEvent => 1
    case DisplayGroup => 2
    case ItemName => 3
  }

  /** Header c went, in the substring tier, to a field ahead of f in the
      elif chain. */
  predicate TakenAhead(s0: Schema, keys: seq<Option<string>>, c: nat, f: Field)
  {
    exists g :: Rank(g) < Rank(f) && Col(PartialUpTo(s0, keys, c + 1), g) == Some(c)
  }

  /** The substring tier gives a missing field the LOWEST column whose header
      passes its test, skipping only headers that a field ahead of it in the
      elif chain took; None means every such header was taken that way. */
  lemma {:induction false} PartialFirstMatch(s0: Schema, keys: seq<Option<string>>, n: nat, f: Field)
    requires Col(s0, f).None?
    ensures match Col(PartialUpTo(s0, keys, n), f)
            case None =>
              forall c :: 0 <= c < n && KeyAt(keys, c).Some? && PartialMatch(f, KeyAt(keys, c).value) ==>
                TakenAhead(s0, keys, c, f)
            case Some(c) =>
              && c < n && KeyAt(keys, c).Some? && PartialMatch(f, KeyAt(keys, c).value)
              && forall c' :: 0 <= c' < c && KeyAt(keys, c').Some? && PartialMatch(f, KeyAt(keys, c').value) ==>
                   TakenAhead(s0, keys, c', f)
  {
    if n > 0 {
      PartialFirstMatch(s0, keys, n - 1, f);
      PartialFillsOnlyMissing(s0, keys, n, f);
      match KeyAt(keys, n - 1)
      case None =>
      case Some(key) =>
        var s := PartialUpTo(s0, keys, n - 1);
        if Col(s, f).None? && PartialMatch(f, key) && Col(PartialStep(s, n - 1, key), f).None? {
          PartialStepPreempted(s, n - 1, key, f);
        }
    }
  }

  /** A missing field whose test a header passes is skipped only when a
      field ahead of it in the chain takes that header. */
  lemma PartialStepPreempted(s: Schema, c: nat, key: string, f: Field)
    requires Col(s, f).None? && PartialMatch(f, key)
    requires Col(PartialStep(s, c, key), f).None?
    ensures exists g :: Rank(g) < Rank(f) && Col(PartialStep(s, c, key), g) == Some(c)
  {
    var r := PartialStep(s, c, key);
    if s.idItem.None? && Contains(key, "id_item") {
      assert Col(r, IdItem) == Some(c);
    } else if s.idEvent.None? && Contains(key, "id_event") {
      assert Col(r, IdEvent) == Some(c);
    } else {
      assert Col(r, DisplayGroup) == Some(c);
    }
  }

  /** id_item heads the chain, so it gets the first header containing
      "id_item", and None only when no header does. */
  lemma PartialIdItemFirst(s0: Schema, keys: seq<Option<string>>, n: nat)
    requires s0.idItem.None?
    ensures match PartialUpTo(s0, keys, n).idItem
            case None => forall c :: 0 <= c < n ==> !(KeyAt(keys, c).Some? && Contains(KeyAt(keys, c).value, "id_item"))
            case Some(c) =>
              && c < n && KeyAt(keys, c).Some? && Contains(KeyAt(keys, c).value, "id_item")
              && forall c' :: 0 <= c' < c ==> !(KeyAt(keys, c').Some? && Contains(KeyAt(keys, c').value, "id_item"))
  {
    PartialFirstMatch(s0, keys, n, IdItem);
  }

  /** The substring-tier loop. */
  method DetectPartial(s0: Schema, header: Row, width: nat) returns (s: Schema)
    ensures s == PartialUpTo(s0, HeaderKeys(header, width), width)
  {
    s := s0;
    var colIdx := 0;
    while colIdx < width
      invariant colIdx <= width
      invariant s == PartialUpTo(s0, HeaderKeys(header, width), colIdx)
    {
      var h := CellAt(header, colIdx);
      if !h.Blank? {
        var headerStr := Strip(Lower(Str(h)));
        if s.idItem.None? && Contains(headerStr, "id_item") {
          s := s.(idItem := Some(colIdx));
        } else if s.idEvent.None? && Contains(headerStr, "id_event") {
          s := s.(idEvent := Some(colIdx));
        } else if s.displayGroup.None? && (Contains(headerStr, "display_group") || Contains(headerStr, "group")) {
          s := s.(displayGroup := Some(colIdx));
        } else if s.itemName.None? && Contains(headerStr, "item_name") {
          s := s.(itemName := Some(colIdx));
        }
      }
      colIdx := colIdx + 1;
    }
  }

  // -------------------------------------------------------------- pattern tier

  /** The sample value of a cell: stripped text, "" when missing. */
  function SampleValue(c: Cell): string
  {
    if c.Blank? then "" else Strip(Str(c))
  }

  /** The sample values of the first n cells of a row. */
  function SampleValues(sample: Row, n: nat): (values: seq<string>)
    ensures |values| == n
  {
    seq(n, c requires 0 <= c < n => SampleValue(CellAt(sample, c)))
  }

  function ValueAt(values: seq<string>, c: nat): string
  {
    if c < |values| then values[c] else ""
  }

  /** value.split(':') has two parts: the value holds exactly one colon. */
  predicate LooksLikeEvent(value: string)
  {
    ':' in value && Count(value, ':') == 1
  }

  /** Longer than five characters, not all digits, not a boolean or 0/1
      flag, and mentioning one of the group words, case-insensitively. */
  predicate LooksLikeGroup(value: string)
  {
    && value != "" && |value| > 5
    && !IsDigits(value) && value !in ["TRUE", "FALSE", "0", "1"]
    && exists k :: 0 <= k < |GroupWords| && Contains(Lower(value), GroupWords[k])
  }

  /** One cell of the pattern tier. */
  function PatternStep(s: Schema, c: nat, value: string): Schema
  {
    if s.idEvent.None? && LooksLikeEvent(value) then s.(idEvent := Some(c))
    else if s.displayGroup.None? && LooksLikeGroup(value) then s.(displayGroup := Some(c))
    else s
  }

  /** The pattern tier over the first n sample values. */
  function PatternUpTo(s0: Schema, values: seq<string>, n: nat): Schema
  {
    if n == 0 then s0 else PatternStep(PatternUpTo(s0, values, n - 1), n - 1, ValueAt(values, n - 1))
  }

  /** The pattern tier touches only id_event and display_group, overrides
      neither, and finds for each the first sample cell that looks like one
      while it was still missing. */
  lemma {:induction false} PatternFillsEventAndGroup(s0: Schema, values: seq<string>, n: nat)
    ensures var s := PatternUpTo(s0, values, n);
            s.idItem == s0.idItem && s.itemName == s0.itemName
    ensures s0.idEvent.Some? ==> PatternUpTo(s0, values, n).idEvent == s0.idEvent
    ensures s0.displayGroup.Some? ==> PatternUpTo(s0, values, n).displayGroup == s0.displayGroup
    ensures s0.idEvent.None? ==>
              match PatternUpTo(s0, values, n).idEvent
              case None => forall c :: 0 <= c < n ==> !LooksLikeEvent(ValueAt(values, c))
              case Some(c) =>
                && c < n && LooksLikeEvent(ValueAt(values, c))
                && forall c' :: 0 <= c' < c ==> !LooksLikeEvent(ValueAt(values, c'))
    ensures s0.displayGroup.None? && PatternUpTo(s0, values, n).displayGroup.Some? ==>
              var c := PatternUpTo(s0, values, n).displayGroup.value;
              c < n && LooksLikeGroup(ValueAt(values, c))
  {
    if n > 0 {
      PatternFillsEventAndGroup(s0, values, n - 1);
    }
  }

  /** How many sample cells the pattern tier looks at. */
  function PatternLimit(width: nat): nat
  {
    if width < PatternColumns then width else PatternColumns
  }

  lemma PatternNext(s0: Schema, values: seq<string>, n: nat)
    ensures PatternUpTo(s0, values, n + 1) == PatternStep(PatternUpTo(s0, values, n), n, ValueAt(values, n))
  {
  }

  /** The tests of the pattern tier on one sample value. */
  method ExamineSample(s: Schema, colIdx: nat, value: string) returns (s': Schema)
    ensures s' == PatternStep(s, colIdx, value)
  {
    s' := s;
    if s.idEvent.None? && ':' in value && Count(value, ':') == 1 {
      s' := s.(idEvent := Some(colIdx));
    } else if s.displayGroup.None? && value != "" && |value| > 5 {
      if !IsDigits(value) && value !in ["TRUE", "FALSE", "0", "1"] {
        var mentions := exists k :: 0 <= k < |GroupWords| && Contains(Lower(value), GroupWords[k]);
        if mentions {
          s' := s.(displayGroup := Some(colIdx));
        }
      }
    }
  }

  /** The pattern-tier loop over the sample row. */
  method DetectPattern(s0: Schema, sample: Row, width: nat) returns (s: Schema)
    ensures s == PatternUpTo(s0, SampleValues(sample, PatternLimit(width)), PatternLimit(width))
  {
    var limit := if width < PatternColumns then width else PatternColumns;
    ghost var values := SampleValues(sample, limit);
    s := s0;
    var colIdx := 0;
    while colIdx < limit
      invariant colIdx <= limit
      invariant s == PatternUpTo(s0, values, colIdx)
    {
      var cell := CellAt(sample, colIdx);
      var value := if !cell.Blank? then Strip(Str(cell)) else "";
      assert value == ValueAt(values, colIdx);
      PatternNext(s0, values, colIdx);
      s := ExamineSample(s, colIdx, value);
      colIdx := colIdx + 1;
    }
  }

  // ------------------------------------------------------------ whole detection

  /** The three tiers without headers: nothing found. With headers: the
      substring tier only when the exact tier left something falsy; the
      pattern tier only then and when there is a first data row. */
  function DetectWith(keys: seq<Option<string>>, values: Option<seq<string>>): Schema
  {
    var e := ExactUpTo(keys, |keys|);
    var p := if AllFound(e) then e else PartialUpTo(e, keys, |keys|);
    if !AllFound(p) && values.Some? then PatternUpTo(p, values.value, |values.value|) else p
  }

  function Detect(headers: Option<Row>, rows: seq<Row>, width: nat): Schema
  {
    match headers
    case None => Unset
    case Some(h) =>
      DetectWith(HeaderKeys(h, width),
                 if |rows| > 0 then Some(SampleValues(rows[0], PatternLimit(width))) else None)
  }

  method DetectColumns(headers: Option<Row>, rows: seq<Row>, width: nat) returns (s: Schema)
    ensures s == Detect(headers, rows, width)
  {
    s := Unset;
    if headers.Some? {
      var h := headers.value;
      s := DetectExact(h, width);
      if !(Truthy(s.idItem) && Truthy(s.idEvent) && Truthy(s.displayGroup) && Truthy(s.itemName)) {
        s := DetectPartial(s, h, width);
      }
      if !(Truthy(s.idItem) && Truthy(s.idEvent) && Truthy(s.displayGroup) && Truthy(s.itemName)) && |rows| > 0 {
        s := DetectPattern(s, rows[0], width);
      }
    }
  }

  /** What the detection promises, for any header keys and sample values:
      the id_item and item_name columns come from the headers only; an
      exactly named header, when one exists, wins for its field; a column
      found for a field is one whose header contains the field's name or,
      for id_event and display_group, one whose sample value looks like one;
      every column found is among the keys or the sample values. */
  lemma DetectWithSpec(keys: seq<Option<string>>, values: Option<seq<string>>, f: Field)
    ensures (exists c :: 0 <= c < |keys| && HasKey(keys, c, ExactName(f))) ==>
              Col(DetectWith(keys, values), f) == Col(ExactUpTo(keys, |keys|), f)
    ensures Col(DetectWith(keys, values), f).Some? ==>
              var c := Col(DetectWith(keys, values), f).value;
              || (c < |keys| && KeyAt(keys, c).Some? && PartialMatch(f, KeyAt(keys, c).value))
              || (f == IdEvent && values.Some? && c < |values.value| && LooksLikeEvent(ValueAt(values.value, c)))
              || (f == DisplayGroup && values.Some? && c < |values.value| && LooksLikeGroup(ValueAt(values.value, c)))
  {
    var e := ExactUpTo(keys, |keys|);
    var p := if AllFound(e) then e else PartialUpTo(e, keys, |keys|);
    ExactLastMatch(keys, |keys|, f);
    PartialFillsOnlyMissing(e, keys, |keys|, f);
    if Col(e, f).Some? {
      ExactNameMatches(f, KeyAt(keys, Col(e, f).value).value);
    }
    if !AllFound(p) && values.Some? {
      PatternFillsEventAndGroup(p, values.value, |values.value|);
    }
  }

  /** An exact name also passes the substring test. */
  lemma ExactNameMatches(f: Field, key: string)
    requires key == ExactName(f)
    ensures PartialMatch(f, key)
  {
    ContainsItself(key);
  }

  lemma {:induction false} ContainsItself(s: string)
    ensures Contains(s, s)
  {
    assert s[..|s|] == s;
  }

  /** Without headers nothing is found; with them every column found is
      inside the frame. */
  lemma DetectInFrame(headers: Option<Row>, rows: seq<Row>, width: nat, f: Field)
    ensures headers.None? ==> Detect(headers, rows, width) == Unset
    ensures Col(Detect(headers, rows, width), f).Some? ==> Col(Detect(headers, rows, width), f).value < width
  {
    if headers.Some? {
      DetectWithSpec(HeaderKeys(headers.value, width),
                     if |rows| > 0 then Some(SampleValues(rows[0], PatternLimit(width))) else None, f);
    }
  }

  /** When every exact name is present away from column 0, the data row is
      never consulted. */
  lemma ExactSuffices(keys: seq<Option<string>>, values: Option<seq<string>>)
    requires AllFound(ExactUpTo(keys, |keys|))
    ensures DetectWith(keys, values) == ExactUpTo(keys, |keys|)
  {
  }
}
