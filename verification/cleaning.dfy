/** The cleaning script: keep six columns, drop the complaints without a
    narrative, and normalise each narrative (lower-case, delete everything
    that is neither a word character nor whitespace, strip both ends).
 */
module DataCleaning {
  import opened Text
  import opened Frame

  /** The six columns the cleaned table keeps, in this order. */
  const EssentialColumns: seq<string> :=
    ["Date received", "Product", "Issue", "Consumer complaint narrative", "Company", "State"]

  /** Position of the narrative among the essential columns. */
  const Narrative: nat := 3

  lemma EssentialColumnsLayout()
    ensures |EssentialColumns| == 6 && EssentialColumns[Narrative] == NarrativeColumn
    ensures Distinct(EssentialColumns)
  {
  }

  // ---------------------------------------------------------------------------
  // Narrative normalisation.

  predicate IsKept(c: char) {
    IsWordChar(c) || IsSpace(c)
  }

  /** The regular-expression deletion of every character outside `\w` and
      `\s`: the characters of `s` that are word characters or whitespace, in
      their original order. */
  function KeepWordAndSpace(s: string): (r: string)
    ensures |r| <= |s|
    ensures forall i :: 0 <= i < |r| ==> IsKept(r[i])
    ensures HasNoUpper(s) ==> HasNoUpper(r)
  {
    if |s| == 0 then []
    else if IsKept(s[0]) then [s[0]] + KeepWordAndSpace(s[1..])
    else KeepWordAndSpace(s[1..])
  }

  /** The filter works character by character: it distributes over concatenation. */
  lemma {:induction false} KeepWordAndSpaceAppend(a: string, b: string)
    ensures KeepWordAndSpace(a + b) == KeepWordAndSpace(a) + KeepWordAndSpace(b)
    decreases |a|
  {
    if |a| == 0 {
      assert a + b == b;
    } else {
      assert (a + b)[1..] == a[1..] + b;
      KeepWordAndSpaceAppend(a[1..], b);
    }
  }

  /** A single character survives exactly when it is a word character or whitespace. */
  lemma KeepWordAndSpaceOne(c: char)
    ensures KeepWordAndSpace([c]) == if IsKept(c) then [c] else []
  {
  }

  /** A string made only of kept characters passes through unchanged. */
  lemma {:induction false} KeepWordAndSpaceOfKept(s: string)
    requires forall i :: 0 <= i < |s| ==> IsKept(s[i])
    ensures KeepWordAndSpace(s) == s
    decreases |s|
  {
    if |s| > 0 {
      KeepWordAndSpaceOfKept(s[1..]);
      assert [s[0]] + s[1..] == s;
    }
  }

  /** `Strip` only cuts characters off the ends, so a property every input
      character has is kept by every character left. */
  lemma StripKeepsNoUpper(s: string)
    requires HasNoUpper(s)
    ensures HasNoUpper(Strip(s))
  {
    var r := Strip(s);
    var i: nat, j: nat :| CutsSpaceOnly(s, r, i, j);
    forall k | 0 <= k < |r| ensures !IsUpper(r[k]) {
      assert r[k] == s[i + k];
    }
  }

  lemma StripKeepsKept(s: string)
    requires forall k :: 0 <= k < |s| ==> IsKept(s[k])
    ensures forall k :: 0 <= k < |Strip(s)| ==> IsKept(Strip(s)[k])
  {
    var r := Strip(s);
    var i: nat, j: nat :| CutsSpaceOnly(s, r, i, j);
    forall k | 0 <= k < |r| ensures IsKept(r[k]) {
      assert r[k] == s[i + k];
    }
  }

  /** What a cleaned narrative looks like. */
  predicate IsCleanNarrative(s: string) {
    && HasNoUpper(s)
    && (forall i :: 0 <= i < |s| ==> IsKept(s[i]))
    && IsTrimmed(s)
  }

  /** The word characters of `s`, in order: what survives of a text once
      punctuation and whitespace are disregarded. */
  function WordChars(s: string): string {
    if |s| == 0 then []
    else (if IsWordChar(s[0]) then [s[0]] else []) + WordChars(s[1..])
  }

  lemma {:induction false} WordCharsAppend(a: string, b: string)
    ensures WordChars(a + b) == WordChars(a) + WordChars(b)
    decreases |a|
  {
    if |a| == 0 {
      assert a + b == b;
    } else {
      assert (a + b)[1..] == a[1..] + b;
      WordCharsAppend(a[1..], b);
    }
  }

  /** Whitespace holds no word character. */
  lemma {:induction false} WordCharsOfSpace(s: string)
    requires forall k :: 0 <= k < |s| ==> IsSpace(s[k])
    ensures WordChars(s) == []
    decreases |s|
  {
    if |s| > 0 {
      WordCharsOfSpace(s[1..]);
    }
  }

  /** Lower-casing keeps exactly the word characters, each lower-cased. */
  lemma {:induction false} WordCharsLower(s: string)
    ensures WordChars(ToLower(s)) == ToLower(WordChars(s))
    decreases |s|
  {
    if |s| > 0 {
      WordCharsLower(s[1..]);
      assert ToLower(s)[1..] == ToLower(s[1..]);
      var head := if IsWordChar(s[0]) then [s[0]] else [];
      assert ToLower(head + WordChars(s[1..])) == ToLower(head) + ToLower(WordChars(s[1..]));
    }
  }

  /** Deleting punctuation loses no word character. */
  lemma {:induction false} WordCharsOfKeep(s: string)
    ensures WordChars(KeepWordAndSpace(s)) == WordChars(s)
    decreases |s|
  {
    if |s| > 0 {
      WordCharsOfKeep(s[1..]);
      if IsKept(s[0]) {
        WordCharsAppend([s[0]], KeepWordAndSpace(s[1..]));
      }
    }
  }

  /** Stripping loses no word character. */
  lemma StripKeepsWordChars(s: string)
    ensures WordChars(Strip(s)) == WordChars(s)
  {
    var r := Strip(s);
    var i: nat, j: nat :| CutsSpaceOnly(s, r, i, j);
    assert s == s[..i] + r + s[j..];
    WordCharsAppend(s[..i] + r, s[j..]);
    WordCharsAppend(s[..i], r);
    WordCharsOfSpace(s[..i]);
    WordCharsOfSpace(s[j..]);
  }

  /** The narrative normalisation: lower-case, delete every character outside
      `\w` and `\s`, strip both ends. The result is a clean narrative that
      holds every word character of the input, lower-cased and in order. */
  function NormaliseNarrative(s: string): (r: string)
    ensures HasNoUpper(r)
    ensures forall i :: 0 <= i < |r| ==> IsKept(r[i])
    ensures IsTrimmed(r)
    ensures |r| <= |s|
    ensures WordChars(r) == ToLower(WordChars(s))
    ensures exists i: nat, j: nat :: CutsSpaceOnly(KeepWordAndSpace(ToLower(s)), r, i, j)
  {
    var lowered := ToLower(s);
    LowerHasNoUpper(s);
    var kept := KeepWordAndSpace(lowered);
    var r := Strip(kept);
    StripKeepsNoUpper(kept);
    StripKeepsKept(kept);
    StripKeepsWordChars(kept);
    WordCharsOfKeep(lowered);
    WordCharsLower(s);
    r
  }

  /** Normalising a normalised narrative changes nothing. */
  lemma NormaliseIdempotent(s: string)
    ensures NormaliseNarrative(NormaliseNarrative(s)) == NormaliseNarrative(s)
  {
    var r := NormaliseNarrative(s);
    LowerOfLowerIsIdentity(r);
    KeepWordAndSpaceOfKept(r);
    StripTrimmed(r);
  }

  // ---------------------------------------------------------------------------
  // Rows.

  /** A row of the projected table: one cell per essential column. */
  predicate IsEssentialRow(row: Row) {
    |row| == |EssentialColumns|
  }

  predicate AllEssential(rows: seq<Row>) {
    forall i :: 0 <= i < |rows| ==> IsEssentialRow(rows[i])
  }

  /** A row of the cleaned table: its narrative is present and normalised. */
  predicate IsCleanRow(row: Row) {
    IsEssentialRow(row) && row[Narrative].Present? && IsCleanNarrative(row[Narrative].text)
  }

  /** Replace a present narrative by its normalised form; other cells are kept. */
  function CleanRow(row: Row): (r: Row)
    requires IsEssentialRow(row) && row[Narrative].Present?
    ensures IsCleanRow(r)
    ensures |r| == |row| && r[Narrative] == Present(NormaliseNarrative(row[Narrative].text))
    ensures forall k :: 0 <= k < |row| && k != Narrative ==> r[k] == row[k]
  {
    row[Narrative := Present(NormaliseNarrative(row[Narrative].text))]
  }

  /** The number of rows whose cell `k` is present. */
  function CountPresent(rows: seq<Row>, k: nat): (n: nat)
    requires forall i :: 0 <= i < |rows| ==> k < |rows[i]|
    ensures n <= |rows|
  {
    if |rows| == 0 then 0
    else (if rows[0][k].Present? then 1 else 0) + CountPresent(rows[1..], k)
  }

  /** The rows at or after `from` whose cell `k` is present. */
  ghost function PresentRows(rows: seq<Row>, k: nat, from: nat): set<nat> {
    set i: nat | from <= i < |rows| && k < |rows[i]| && rows[i][k].Present?
  }

  lemma {:induction false} CountPresentFrom(rows: seq<Row>, k: nat, from: nat)
    requires forall i :: 0 <= i < |rows| ==> k < |rows[i]|
    requires from <= |rows|
    ensures CountPresent(rows[from..], k) == |PresentRows(rows, k, from)|
    decreases |rows| - from
  {
    if from == |rows| {
      assert PresentRows(rows, k, from) == {};
    } else {
      CountPresentFrom(rows, k, from + 1);
      assert rows[from..][1..] == rows[from + 1..];
      var rest := PresentRows(rows, k, from + 1);
      if rows[from][k].Present? {
        assert PresentRows(rows, k, from) == {from} + rest;
      } else {
        assert PresentRows(rows, k, from) == rest;
      }
    }
  }

  /** `CountPresent` counts exactly the rows whose cell `k` is present. */
  lemma CountPresentCounts(rows: seq<Row>, k: nat)
    requires forall i :: 0 <= i < |rows| ==> k < |rows[i]|
    ensures CountPresent(rows, k) == |set i: nat | i < |rows| && rows[i][k].Present?|
  {
    CountPresentFrom(rows, k, 0);
    assert rows[0..] == rows;
    assert PresentRows(rows, k, 0) == set i: nat | i < |rows| && rows[i][k].Present?;
  }

  /** Dropping the rows without a narrative, followed by the narrative normalisation. */
  function CleanRows(rows: seq<Row>): (r: seq<Row>)
    requires AllEssential(rows)
    ensures |r| == CountPresent(rows, Narrative)
    ensures forall i :: 0 <= i < |r| ==> IsCleanRow(r[i])
  {
    if |rows| == 0 then []
    else if rows[0][Narrative].Present? then [CleanRow(rows[0])] + CleanRows(rows[1..])
    else CleanRows(rows[1..])
  }

  /** Rows are dropped or kept one at a time and kept rows stay in order:
      cleaning distributes over concatenation. */
  lemma {:induction false} CleanRowsAppend(a: seq<Row>, b: seq<Row>)
    requires AllEssential(a)
    requires AllEssential(b)
    ensures CleanRows(a + b) == CleanRows(a) + CleanRows(b)
    decreases |a|
  {
    if |a| == 0 {
      assert a + b == b;
    } else {
      assert (a + b)[1..] == a[1..] + b;
      CleanRowsAppend(a[1..], b);
    }
  }

  /** A single row is kept, cleaned, exactly when its narrative is present. */
  lemma CleanRowsOne(row: Row)
    requires IsEssentialRow(row)
    ensures row[Narrative].Present? ==> CleanRows([row]) == [CleanRow(row)]
    ensures row[Narrative].Missing? ==> CleanRows([row]) == []
  {
  }

  /** Projecting to the essential columns moves the narrative cell to
      position `Narrative` without changing which rows have one. */
  lemma {:induction false} CountPresentSelected(t: Table, projected: seq<Row>, k: nat)
    requires |projected| == |t.rows|
    requires forall i :: 0 <= i < |t.rows| ==> k < |t.rows[i]|
    requires AllEssential(projected)
    requires forall i :: 0 <= i < |t.rows| ==> projected[i][Narrative] == t.rows[i][k]
    ensures CountPresent(projected, Narrative) == CountPresent(t.rows, k)
    decreases |projected|
  {
    if |projected| > 0 {
      CountPresentSelected(Table(t.columns, t.rows[1..]), projected[1..], k);
    }
  }

  /** The whole cleaning script on a loaded table. It fails with a KeyError
      when one of the essential columns is absent; otherwise the result has
      exactly the essential columns, one cleaned row for every input row
      with a narrative, and nothing else. */
  function Clean(t: Table): (r: Result<Table>)
    requires t.WellFormed()
    ensures r.Err? <==> exists n :: n in EssentialColumns && n !in t.columns
    ensures r.Err? ==> r.error == KeyError(MissingNames(t.columns, EssentialColumns))
    ensures r.Ok? ==> r.value.columns == EssentialColumns && r.value.WellFormed()
    ensures r.Ok? ==> forall i :: 0 <= i < |r.value.rows| ==> IsCleanRow(r.value.rows[i])
    ensures r.Ok? ==> |r.value.rows| == CountPresent(t.rows, IndexOf(t.columns, NarrativeColumn).value)
    ensures r.Ok? ==> Select(t, EssentialColumns).Ok? && r.value.rows == CleanRows(Select(t, EssentialColumns).value.rows)
  {
    match Select(t, EssentialColumns)
    case Err(e) => Err(e)
    case Ok(projected) =>
      EssentialColumnsLayout();
      var k := IndexOf(t.columns, NarrativeColumn).value;
      CountPresentSelected(t, projected.rows, k);
      Ok(Table(EssentialColumns, CleanRows(projected.rows)))
  }
}
