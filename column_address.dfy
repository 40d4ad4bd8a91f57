/** Spreadsheet column letters to zero-based column indices (get_column_index,
    written out identically in all four scripts), with the inverse numbering
    that shows the decoding is bijective base 26. */
module ColumnAddress {
  import opened Cells

  /** What one character adds to the accumulator: ord(c.upper()) - ord('A') + 1. */
  function LetterValue(ch: char): int
  {
    (UpperChar(ch) as int) - ('A' as int) + 1
  }

  /** The accumulator after the loop has read all of s: index * 26 + value per character. */
  function Accumulated(s: string): int
  {
    if s == [] then 0 else Accumulated(s[..|s| - 1]) * 26 + LetterValue(s[|s| - 1])
  }

  /** The value get_column_index returns. */
  function ColumnIndex(s: string): int
  {
    Accumulated(s) - 1
  }

  predicate IsUpperLetter(ch: char) { 'A' <= ch <= 'Z' }

  predicate IsLetter(ch: char) { 'A' <= ch <= 'Z' || 'a' <= ch <= 'z' }

  /** A spreadsheet column address in upper case, such as "DF". */
  predicate IsUpperWord(s: string)
  {
    forall k :: 0 <= k < |s| ==> IsUpperLetter(s[k])
  }

  /** get_column_index: the accumulator loop. */
  method GetColumnIndex(colStr: string) returns (index: int)
    ensures index == Accumulated(colStr) - 1
    ensures (forall k :: 0 <= k < |colStr| ==> IsLetter(colStr[k])) && colStr != [] ==> index >= 0
  {
    var acc := 0;
    var i := 0;
    while i < |colStr|
      invariant 0 <= i <= |colStr|
      invariant acc == Accumulated(colStr[..i])
    {
      assert colStr[..i + 1][..i] == colStr[..i];
      acc := acc * 26 + LetterValue(colStr[i]);
      i := i + 1;
    }
    assert colStr[..|colStr|] == colStr;
    index := acc - 1;
    if (forall k :: 0 <= k < |colStr| ==> IsLetter(colStr[k])) && colStr != [] {
      AccumulatedPositive(colStr);
    }
  }

  /** The 1-based spreadsheet column number n written in letters (bijective base 26). */
  function Letters(n: nat): (s: string)
    ensures IsUpperWord(s)
    ensures n > 0 <==> s != []
  {
    if n == 0 then [] else Letters((n - 1) / 26) + [(('A' as int) + (n - 1) % 26) as char]
  }

  lemma {:induction false} AccumulatedPositive(s: string)
    requires forall k :: 0 <= k < |s| ==> IsLetter(s[k])
    ensures s != [] ==> Accumulated(s) >= 1
    ensures Accumulated(s) >= 0
  {
    if s != [] {
      AccumulatedPositive(s[..|s| - 1]);
    }
  }

  /** Decoding the letters of a column number gives the number back. */
  lemma {:induction false} LettersRoundTrip(n: nat)
    ensures Accumulated(Letters(n)) == n
  {
    if n > 0 {
      var q, r := (n - 1) / 26, (n - 1) % 26;
      var s := Letters(n);
      assert s[..|s| - 1] == Letters(q);
      LettersRoundTrip(q);
      assert LetterValue(s[|s| - 1]) == r + 1;
      assert n == q * 26 + r + 1;
    }
  }

  /** Encoding the number an upper-case address decodes to gives the address back. */
  lemma {:induction false} AccumulatedRoundTrip(s: string)
    requires IsUpperWord(s)
    ensures Accumulated(s) >= 0 && Letters(Accumulated(s)) == s
  {
    AccumulatedPositive(s);
    if s != [] {
      var init, last := s[..|s| - 1], s[|s| - 1];
      AccumulatedRoundTrip(init);
      AccumulatedPositive(init);
      var a, v := Accumulated(init), LetterValue(last);
      assert 1 <= v <= 26;
      var n := a * 26 + v;
      assert (n - 1) / 26 == a && (n - 1) % 26 == v - 1 by {
        assert n - 1 == a * 26 + (v - 1);
      }
      assert ((('A' as int) + (n - 1) % 26) as char) == last;
      assert s == init + [last];
    }
  }

  /** Distinct upper-case addresses name distinct columns. */
  lemma ColumnIndexInjective(s: string, t: string)
    requires IsUpperWord(s) && IsUpperWord(t)
    requires ColumnIndex(s) == ColumnIndex(t)
    ensures s == t
  {
    AccumulatedRoundTrip(s);
    AccumulatedRoundTrip(t);
  }

  /** Every column index has exactly one upper-case address. */
  lemma ColumnIndexSurjective(index: nat)
    ensures IsUpperWord(Letters(index + 1)) && ColumnIndex(Letters(index + 1)) == index
  {
    LettersRoundTrip(index + 1);
  }

  /** Letter case does not matter: "df" and "DF" are the same column. */
  lemma {:induction false} ColumnIndexIgnoresCase(s: string)
    ensures ColumnIndex(s) == ColumnIndex(Upper(s))
    ensures Accumulated(s) == Accumulated(Upper(s))
  {
    if s != [] {
      var u := Upper(s);
      ColumnIndexIgnoresCase(s[..|s| - 1]);
      assert u[..|u| - 1] == Upper(s[..|s| - 1]);
      assert UpperChar(u[|u| - 1]) == UpperChar(s[|s| - 1]);
    }
  }

  /** The column letters the scripts use, and the first few of the numbering. */
  lemma ColumnIndexValues()
    ensures ColumnIndex("A") == 0 && ColumnIndex("Z") == 25 && ColumnIndex("AA") == 26
    ensures ColumnIndex("DF") == 109 && ColumnIndex("HV") == 229
    ensures ColumnIndex("HW") == 230 && ColumnIndex("MN") == 351
    ensures ColumnIndex("a") == 0 && ColumnIndex("df") == 109
  {
  }
}
