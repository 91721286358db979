/**
 * The column list of the uploaded character table: the check that the
 * required columns are there, the two age columns the upload adds, and
 * the display order (the four fixed columns first, then every other
 * column in its original order).
 */
module Columns {

  const NameColumn: string := "이름"
  const BirthColumn: string := "생년월일"
  const InternationalColumn: string := "만 나이"
  const CountingColumn: string := "세는 나이"

  /** The four columns shown first, in this order. */
  const DisplayColumns: seq<string> := [NameColumn, BirthColumn, InternationalColumn, CountingColumn]

  /** The upload's error when a required column is missing. */
  datatype UploadError = MissingRequiredColumn

  datatype Result<T> = Ok(value: T) | Err(error: UploadError)

  predicate Distinct(s: seq<string>) {
    forall i, j :: 0 <= i < j < |s| ==> s[i] != s[j]
  }

  /** `a` is `b` with some elements dropped and the rest kept in order. */
  predicate IsSubsequence(a: seq<string>, b: seq<string>) {
    if a == [] then true
    else if b == [] then false
    else if a[0] == b[0] then IsSubsequence(a[1..], b[1..])
    else IsSubsequence(a, b[1..])
  }

  /**
   * Assigning a column of a table: a column of that name is overwritten
   * where it stands; otherwise a new column is added at the end.
   */
  function WithColumn(cols: seq<string>, c: string): (r: seq<string>)
    ensures c in r
    ensures forall x :: x in r <==> x in cols || x == c
    ensures |cols| <= |r| && r[..|cols|] == cols
    ensures |r| == |cols| + (if c in cols then 0 else 1)
    ensures Distinct(cols) ==> Distinct(r)
  {
    if c in cols then cols else cols + [c]
  }

  /**
   * The table's columns after the two age columns have been assigned, 만 나이
   * first: the old columns stay a prefix, and what follows is exactly the
   * age columns that were missing, in that order.
   */
  function WithAgeColumns(cols: seq<string>): (r: seq<string>)
    ensures forall x :: x in r <==> x in cols || x == InternationalColumn || x == CountingColumn
    ensures |cols| <= |r| && r[..|cols|] == cols
    ensures |r| == |cols| + (if InternationalColumn in cols then 0 else 1)
                          + (if CountingColumn in cols then 0 else 1)
    ensures InternationalColumn !in cols && CountingColumn !in cols
            ==> r[|cols|..] == [InternationalColumn, CountingColumn]
    ensures Distinct(cols) ==> Distinct(r)
  {
    WithColumn(WithColumn(cols, InternationalColumn), CountingColumn)
  }

  /** The columns that are not among the four display columns, in their order. */
  function OtherColumns(cols: seq<string>): (r: seq<string>)
    ensures forall x :: x in r <==> x in cols && x !in DisplayColumns
    ensures IsSubsequence(r, cols)
    ensures Distinct(cols) ==> Distinct(r)
  {
    if cols == [] then []
    else if cols[0] in DisplayColumns then OtherColumns(cols[1..])
    else [cols[0]] + OtherColumns(cols[1..])
  }

  /** The display columns first, then the others. */
  function FinalColumns(cols: seq<string>): (r: seq<string>)
    ensures |r| >= 4 && r[..4] == DisplayColumns
    ensures forall x :: x in r <==> x in cols || x in DisplayColumns
    ensures IsSubsequence(r[4..], cols)
  {
    DisplayColumns + OtherColumns(cols)
  }

  /**
   * The column side of an upload: rejected unless the name and birth-date
   * columns are present; otherwise the age columns are assigned and the
   * columns put in display order.
   */
  function UploadColumns(cols: seq<string>): (r: Result<seq<string>>)
    ensures r.Err? <==> NameColumn !in cols || BirthColumn !in cols
    ensures r.Ok? ==> |r.value| >= 4 && r.value[..4] == DisplayColumns
    ensures r.Ok? ==> forall x :: x in cols ==> x in r.value
  {
    if NameColumn in cols && BirthColumn in cols then Ok(FinalColumns(WithAgeColumns(cols)))
    else Err(MissingRequiredColumn)
  }

  /** The display columns that `cols` holds, in the order of `cols`. */
  function KeptColumns(cols: seq<string>): seq<string> {
    if cols == [] then []
    else if cols[0] in DisplayColumns then [cols[0]] + KeptColumns(cols[1..])
    else KeptColumns(cols[1..])
  }

  /** Every column goes either to the kept part or to the other part. */
  lemma {:induction false} SplitPreservesColumns(cols: seq<string>)
    ensures multiset(KeptColumns(cols)) + multiset(OtherColumns(cols)) == multiset(cols)
    ensures forall x :: x in KeptColumns(cols) <==> x in cols && x in DisplayColumns
  {
    if cols != [] {
      SplitPreservesColumns(cols[1..]);
      assert cols == [cols[0]] + cols[1..];
    }
  }

  /** In a sequence without repeats every element occurs exactly once. */
  lemma {:induction false} DistinctOccursOnce(s: seq<string>, x: string)
    requires Distinct(s)
    ensures multiset(s)[x] == if x in s then 1 else 0
  {
    if s != [] {
      assert s == [s[0]] + s[1..];
      DistinctOccursOnce(s[1..], x);
    }
  }

  /**
   * With distinct names that include the four display columns, the kept
   * part is the display columns, each once.
   */
  lemma KeptColumnsAreDisplayColumns(cols: seq<string>)
    requires Distinct(cols)
    requires forall c :: c in DisplayColumns ==> c in cols
    ensures multiset(KeptColumns(cols)) == multiset(DisplayColumns)
  {
    var kept := KeptColumns(cols);
    SplitPreservesColumns(cols);
    DisplayColumnsDistinct();
    forall x
      ensures multiset(kept)[x] == multiset(DisplayColumns)[x]
    {
      DistinctOccursOnce(DisplayColumns, x);
      if x in DisplayColumns {
        DistinctOccursOnce(cols, x);
        assert x in kept;
      } else {
        assert x !in kept;
      }
    }
  }

  lemma DisplayColumnsDistinct()
    ensures Distinct(DisplayColumns)
  {
  }

  lemma DistinctConcat(a: seq<string>, b: seq<string>)
    requires Distinct(a) && Distinct(b)
    requires forall x :: x in a ==> x !in b
    ensures Distinct(a + b)
  {
    var r := a + b;
    forall i, j | 0 <= i < j < |r|
      ensures r[i] != r[j]
    {
      if i >= |a| {
        assert r[i] == b[i - |a|] && r[j] == b[j - |a|];
      } else if j >= |a| {
        assert r[i] == a[i] && r[i] in a;
        assert r[j] == b[j - |a|] && r[j] in b;
      } else {
        assert r[i] == a[i] && r[j] == a[j];
      }
    }
  }

  /**
   * When the columns have distinct names and include the four display
   * columns, the final order is a rearrangement of them: nothing dropped,
   * nothing repeated.
   */
  lemma FinalColumnsIsPermutation(cols: seq<string>)
    requires Distinct(cols)
    requires forall c :: c in DisplayColumns ==> c in cols
    ensures multiset(FinalColumns(cols)) == multiset(cols)
    ensures Distinct(FinalColumns(cols))
  {
    var others := OtherColumns(cols);
    assert FinalColumns(cols) == DisplayColumns + others;
    SplitPreservesColumns(cols);
    KeptColumnsAreDisplayColumns(cols);
    assert multiset(DisplayColumns) + multiset(others) == multiset(cols);
    assert multiset(DisplayColumns + others) == multiset(DisplayColumns) + multiset(others);
    DisplayColumnsDistinct();
    DistinctConcat(DisplayColumns, others);
  }

  /**
   * An accepted upload of distinct column names shows each of them, plus
   * the two age columns, exactly once, with the four display columns first.
   */
  lemma UploadShowsEveryColumnOnce(cols: seq<string>)
    requires Distinct(cols)
    requires NameColumn in cols && BirthColumn in cols
    ensures UploadColumns(cols).Ok?
    ensures multiset(UploadColumns(cols).value) == multiset(WithAgeColumns(cols))
    ensures Distinct(UploadColumns(cols).value)
  {
    FinalColumnsIsPermutation(WithAgeColumns(cols));
  }
}
