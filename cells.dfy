/** Spreadsheet cells as the pandas-based scripts see them, and the handful of
    Python string operations the extractors apply to them. */
module Cells {

  datatype Option<T> = None | Some(value: T)

  /** A cell of a headerless CSV read: missing (NaN), a string, or a number
      (carried by the text that str() gives for it). */
  datatype Cell = Blank | Text(s: string) | Number(shown: string)

  type Row = seq<Cell>

  /** str(value) for a cell; a missing cell prints as "nan". */
  function Str(c: Cell): string
  {
    match c
    case Blank => "nan"
    case Text(s) => s
    case Number(shown) => shown
  }

  /** row.iloc[i]; a column the row does not reach reads as missing, as
      read_csv pads short lines. */
  function CellAt(row: Row, i: int): Cell
  {
    if 0 <= i < |row| then row[i] else Blank
  }

  /** The characters Python's str.isspace() accepts, which str.strip() removes. */
  predicate IsSpace(ch: char)
  {
    var n := ch as int;
    n == 0x20 || 0x09 <= n <= 0x0D || 0x1C <= n <= 0x1F || n == 0x85 || n == 0xA0
    || n == 0x1680 || 0x2000 <= n <= 0x200A || n == 0x2028 || n == 0x2029
    || n == 0x202F || n == 0x205F || n == 0x3000
  }

  /** The first index at or after i that holds a non-space (|s| when none). */
  function SkipSpaces(s: string, i: nat): (j: nat)
    requires i <= |s|
    ensures i <= j <= |s|
    decreases |s| - i
  {
    if i < |s| && IsSpace(s[i]) then SkipSpaces(s, i + 1) else i
  }

  /** The end of s[..j] once its trailing spaces are dropped. */
  function DropTrailing(s: string, j: nat): (k: nat)
    requires j <= |s|
    ensures k <= j
  {
    if j > 0 && IsSpace(s[j - 1]) then DropTrailing(s, j - 1) else j
  }

  /** str.strip(): drop leading and trailing whitespace. */
  function Strip(s: string): (r: string)
    ensures |r| <= |s|
  {
    var i := SkipSpaces(s, 0);
    var k := DropTrailing(s, |s|);
    if i < k then s[i..k] else []
  }

  lemma {:induction false} SkipSpacesSpec(s: string, i: nat)
    requires i <= |s|
    ensures forall k :: i <= k < SkipSpaces(s, i) ==> IsSpace(s[k])
    ensures SkipSpaces(s, i) < |s| ==> !IsSpace(s[SkipSpaces(s, i)])
    decreases |s| - i
  {
    if i < |s| && IsSpace(s[i]) {
      SkipSpacesSpec(s, i + 1);
    }
  }

  lemma {:induction false} DropTrailingSpec(s: string, j: nat)
    requires j <= |s|
    ensures forall k :: DropTrailing(s, j) <= k < j ==> IsSpace(s[k])
    ensures DropTrailing(s, j) > 0 ==> !IsSpace(s[DropTrailing(s, j) - 1])
  {
    if j > 0 && IsSpace(s[j - 1]) {
      DropTrailingSpec(s, j - 1);
    }
  }

  /** strip() keeps a middle slice and removes only whitespace around it. */
  lemma StripSpec(s: string)
    ensures exists a, b :: && 0 <= a <= b <= |s| && Strip(s) == s[a..b]
                           && (forall k :: 0 <= k < a ==> IsSpace(s[k]))
                           && (forall k :: b <= k < |s| ==> IsSpace(s[k]))
  {
    var i := SkipSpaces(s, 0);
    var k := DropTrailing(s, |s|);
    SkipSpacesSpec(s, 0);
    DropTrailingSpec(s, |s|);
    if i < k {
      assert Strip(s) == s[i..k];
    } else {
      assert Strip(s) == s[k..k];
    }
  }

  /** strip() leaves no whitespace at either end. */
  lemma StripTrimmed(s: string)
    ensures Strip(s) != [] ==> !IsSpace(Strip(s)[0]) && !IsSpace(Strip(s)[|Strip(s)| - 1])
  {
    SkipSpacesSpec(s, 0);
    DropTrailingSpec(s, |s|);
  }

  /** Text that neither starts nor ends with whitespace is left alone. */
  lemma StripUnpadded(s: string)
    requires s != [] ==> !IsSpace(s[0]) && !IsSpace(s[|s| - 1])
    ensures Strip(s) == s
  {
  }

  function LowerChar(ch: char): char
  {
    if 'A' <= ch <= 'Z' then (ch as int + 32) as char else ch
  }

  function UpperChar(ch: char): char
  {
    if 'a' <= ch <= 'z' then (ch as int - 32) as char else ch
  }

  /** str.lower() on the ASCII letters. */
  function Lower(s: string): (r: string)
    ensures |r| == |s|
  {
    seq(|s|, i requires 0 <= i < |s| => LowerChar(s[i]))
  }

  /** str.upper() on the ASCII letters. */
  function Upper(s: string): (r: string)
    ensures |r| == |s|
  {
    seq(|s|, i requires 0 <= i < |s| => UpperChar(s[i]))
  }

  /** Python's `needle in hay` for strings. */
  predicate Contains(hay: string, needle: string)
    decreases |hay|
  {
    |needle| <= |hay| && (hay[..|needle|] == needle || (|hay| > 0 && Contains(hay[1..], needle)))
  }

  /** Number of occurrences of a character. */
  function Count(s: string, ch: char): nat
  {
    if s == [] then 0 else (if s[0] == ch then 1 else 0) + Count(s[1..], ch)
  }

  /** s.split(sep)[0]: the text before the first separator (all of s when there is none). */
  function BeforeFirst(s: string, sep: char): (r: string)
    ensures |r| <= |s|
  {
    if s == [] then [] else if s[0] == sep then [] else [s[0]] + BeforeFirst(s[1..], sep)
  }

  /** The text before the first separator is a prefix without the separator,
      followed by the separator unless it is all of s. */
  lemma {:induction false} BeforeFirstSpec(s: string, sep: char)
    ensures BeforeFirst(s, sep) == s[..|BeforeFirst(s, sep)|]
    ensures sep !in BeforeFirst(s, sep)
    ensures |BeforeFirst(s, sep)| < |s| ==> s[|BeforeFirst(s, sep)|] == sep
  {
    if s != [] && s[0] != sep {
      BeforeFirstSpec(s[1..], sep);
    }
  }

  /** s.split(sep, 1)[1] when sep occurs in s: the text after the first separator. */
  function AfterFirst(s: string, sep: char): (r: string)
    requires sep in s
    ensures |r| < |s|
  {
    BeforeFirstShort(s, sep);
    s[|BeforeFirst(s, sep)| + 1..]
  }

  /** When the separator occurs, the text before it stops short of the end. */
  lemma BeforeFirstShort(s: string, sep: char)
    requires sep in s
    ensures |BeforeFirst(s, sep)| < |s|
  {
    BeforeFirstSpec(s, sep);
  }

  /** The two sides of the first separator put back together give s. */
  lemma AfterFirstSpec(s: string, sep: char)
    requires sep in s
    ensures s == BeforeFirst(s, sep) + [sep] + AfterFirst(s, sep)
  {
    BeforeFirstSpec(s, sep);
    BeforeFirstShort(s, sep);
  }

  /** Splitting at the first separator gives back the text before it and the text after it. */
  lemma {:induction false} BeforeFirstSplit(head: string, sep: char, rest: string)
    requires sep !in head
    ensures BeforeFirst(head + [sep] + rest, sep) == head
    ensures AfterFirst(head + [sep] + rest, sep) == rest
  {
    var s := head + [sep] + rest;
    if head != [] {
      assert s[1..] == head[1..] + [sep] + rest;
      BeforeFirstSplit(head[1..], sep, rest);
    }
    assert s[|head| + 1..] == rest;
  }

  /** str.isdigit() on ASCII digits: non-empty and every character a digit. */
  predicate IsDigits(s: string)
  {
    |s| > 0 && forall k :: 0 <= k < |s| ==> '0' <= s[k] <= '9'
  }

  /** Python truthiness of an optional column index: None and 0 are false. */
  predicate Truthy(col: Option<nat>)
  {
    col.Some? && col.value != 0
  }

  /** str(row['ItemID']): the printed text of column 0. */
  function RowId(row: Row): string
  {
    Str(CellAt(row, 0))
  }

  // ------------------------------------------------------- sequence helpers

  lemma AppendAssoc<T>(a: seq<T>, b: seq<T>, c: seq<T>)
    ensures (a + b) + c == a + (b + c)
  {
  }

  lemma AppendEmpty<T>(a: seq<T>)
    ensures a + [] == a
  {
  }

  lemma PrefixStep<T>(s: seq<T>, i: nat)
    requires i < |s|
    ensures s[..i + 1] == s[..i] + [s[i]]
  {
  }
}
