/** A minimal model of the pandas data frames the scripts pass around: named
    columns, rows of cells, cells that may be missing (NaN), and the errors
    pandas raises when a column is asked for that is not there.
 */
module Frame {

  datatype Option<T> = None | Some(value: T)

  /** The exceptions the scripts can raise. */
  datatype Error =
    | KeyError(missing: seq<string>)   // columns asked for that the frame lacks
    | MissingProduct                   // the scoring script's own ValueError for the Product column
    | NoObjectsToConcatenate           // pandas.concat of an empty list
    | EmptyArgmax                      // idxmax of an empty series

  datatype Result<T> = Ok(value: T) | Err(error: Error)

  /** One cell of a frame: a text value or a missing value (NaN). */
  datatype Cell = Missing | Present(text: string)

  type Row = seq<Cell>

  /** The column holding the complaint text, read by both scripts. */
  const NarrativeColumn: string := "Consumer complaint narrative"

  /** Python's `str(cell)`: a missing cell is the float NaN, whose string is "nan". */
  function Str(c: Cell): (s: string)
    ensures c.Present? ==> s == c.text
    ensures c.Missing? ==> s == "nan"
  {
    match c
    case Missing => "nan"
    case Present(t) => t
  }

  predicate Distinct(names: seq<string>) {
    forall i, j :: 0 <= i < j < |names| ==> names[i] != names[j]
  }

  /** A frame: distinct column names (the CSV reader renames duplicates)
      and every row with one cell per column. */
  datatype Table = Table(columns: seq<string>, rows: seq<Row>) {
    predicate WellFormed() {
      && Distinct(columns)
      && forall i :: 0 <= i < |rows| ==> |rows[i]| == |columns|
    }
  }

  /** The position of a column name, if the frame has it. */
  function IndexOf(names: seq<string>, name: string): (r: Option<nat>)
    ensures r.None? <==> name !in names
    ensures r.Some? ==> r.value < |names| && names[r.value] == name && name !in names[..r.value]
  {
    if |names| == 0 then None
    else if names[0] == name then Some(0)
    else
      match IndexOf(names[1..], name)
      case None => None
      case Some(k) =>
        assert names[1..][..k] == names[1..k + 1];
        Some(k + 1)
  }

  /** In a list without duplicates a name's position is its only position. */
  lemma IndexOfDistinct(names: seq<string>, k: nat)
    requires Distinct(names) && k < |names|
    ensures IndexOf(names, names[k]) == Some(k)
  {
  }

  /** The names of `wanted` that `names` lacks, in order. */
  function MissingNames(names: seq<string>, wanted: seq<string>): (r: seq<string>)
    ensures forall n :: n in r <==> n in wanted && n !in names
    ensures |r| <= |wanted|
  {
    if |wanted| == 0 then []
    else
      var rest := MissingNames(names, wanted[1..]);
      assert forall n :: n in wanted <==> n == wanted[0] || n in wanted[1..];
      if wanted[0] in names then rest else [wanted[0]] + rest
  }

  /** The positions of `wanted` in `names`; only called once none is missing. */
  function Positions(names: seq<string>, wanted: seq<string>): (r: seq<nat>)
    requires forall n :: n in wanted ==> n in names
    ensures |r| == |wanted|
    ensures forall j :: 0 <= j < |wanted| ==> r[j] < |names| && names[r[j]] == wanted[j]
  {
    seq(|wanted|, j requires 0 <= j < |wanted| => IndexOf(names, wanted[j]).value)
  }

  /** Column selection: the frame restricted to, and reordered as, `cols`.
      Raises a KeyError naming the columns the frame lacks. */
  function Select(t: Table, cols: seq<string>): (r: Result<Table>)
    requires t.WellFormed()
    ensures r.Err? <==> exists n :: n in cols && n !in t.columns
    ensures r.Err? ==> r.error == KeyError(MissingNames(t.columns, cols))
    ensures r.Ok? ==> r.value.columns == cols && |r.value.rows| == |t.rows|
    ensures r.Ok? ==> forall i :: 0 <= i < |t.rows| ==> |r.value.rows[i]| == |cols|
    ensures r.Ok? ==> forall i, j :: 0 <= i < |t.rows| && 0 <= j < |cols| ==>
                        r.value.rows[i][j] == t.rows[i][IndexOf(t.columns, cols[j]).value]
  {
    var missing := MissingNames(t.columns, cols);
    if |missing| > 0 then
      assert missing[0] in missing;
      Err(KeyError(missing))
    else
      assert forall n :: n in cols ==> n in t.columns by {
        assert forall n :: n !in missing;
      }
      var pos := Positions(t.columns, cols);
      Ok(Table(cols, seq(|t.rows|, i requires 0 <= i < |t.rows| =>
                       seq(|cols|, j requires 0 <= j < |cols| => t.rows[i][pos[j]]))))
  }
}
